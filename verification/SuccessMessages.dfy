/** Reading the success that a Redfish response body reports (DSP0266). Only what the reader looks at
    is kept of a body: the message arrays and the `code`s of the status objects. */
module SuccessMessages {
  import opened Wrappers

  datatype SuccessCode = Success | Created | NoOperation | ResetRequired

  /** A message: its `MessageId`, `MessageSeverity` and `Severity`, where they are strings. */
  datatype Message = Message(id: Option<string>, messageSeverity: Option<string>, severity: Option<string>)

  /** `@Message.ExtendedInfo`: missing or null, not an array, or an array. */
  datatype Info = Absent | Malformed | Listed(messages: seq<Message>)

  /** The `error` or `Success` object, if there is one that is not null. */
  datatype Status = Status(code: Option<string>, info: Info)

  datatype Body = Body(info: Info, error: Option<Status>, success: Option<Status>)

  // ---------- codes ----------

  /** The text after the last point. */
  function Key(id: string): string {
    if '.' !in id then id else Key(id[1..])
  }

  /** The text before the first point. */
  function Registry(id: string): string {
    if id == "" || id[0] == '.' then "" else [id[0]] + Registry(id[1..])
  }

  function CodeOf(id: string): Option<SuccessCode> {
    var key := Key(id);
    if key == "Success" then Some(Success)
    else if key == "Created" then Some(Created)
    else if key == "NoOperation" then Some(NoOperation)
    else if key == "ResetRequired" && Registry(id) == "Base" then Some(ResetRequired)
    else None
  }

  function Precedence(c: SuccessCode): nat {
    match c
    case NoOperation => 0
    case Success => 1
    case ResetRequired => 2
    case Created => 3
  }

  function Allows(c: SuccessCode, severity: string): bool {
    severity == "OK" || (severity == "Warning" && (c.NoOperation? || c.ResetRequired?))
  }

  // ---------- what messages name ----------

  datatype Names = Names(listed: bool, code: Option<SuccessCode>, noOperation: bool, other: bool)

  const NOTHING := Names(false, None, false, false)

  function Name(n: Names, c: SuccessCode): Names {
    n.(noOperation := n.noOperation || c.NoOperation?,
       code := if n.code.None? || Precedence(n.code.value) < Precedence(c) then Some(c) else n.code)
  }

  function AddNames(n: Names, o: Names): Names {
    var m := if o.code.Some? then Name(n, o.code.value) else n;
    m.(noOperation := m.noOperation || o.noOperation, other := m.other || o.other)
  }

  predicate Critical(m: Message) {
    m.messageSeverity == Some("Critical") || m.severity == Some("Critical")
  }

  /** A severity worse than the registry gives the outcome. */
  predicate TooSevere(m: Message, c: SuccessCode) {
    || (m.messageSeverity.Some? && !Allows(c, m.messageSeverity.value))
    || (m.severity.Some? && !Allows(c, m.severity.value))
  }

  function ReadOne(n: Names, m: Message): Option<Names> {
    if Critical(m) || m.id.None? then None
    else
      match CodeOf(m.id.value)
      case Some(c) => var k := Name(n, c); Some(k.(other := k.other || TooSevere(m, c)))
      case None => Some(n.(other := true))
  }

  function ReadAll(n: Names, ms: seq<Message>): Option<Names>
    decreases |ms|
  {
    if ms == [] then Some(n)
    else
      match ReadOne(n, ms[0])
      case None => None
      case Some(k) => ReadAll(k, ms[1..])
  }

  function ReadInfo(info: Info): Option<Names> {
    match info
    case Absent => Some(NOTHING)
    case Malformed => None
    case Listed(ms) => ReadAll(NOTHING.(listed := true), ms)
  }

  /** The loop over one message array. */
  method ReadMessages(info: Info) returns (r: Option<Names>)
    ensures r == ReadInfo(info)
  {
    var names := NOTHING;
    match info
    case Absent => return Some(names);
    case Malformed => return None;
    case Listed(ms) =>
      names := names.(listed := true);
      for i := 0 to |ms|
        invariant ReadAll(names, ms[i..]) == ReadInfo(info)
      {
        assert ms[i..][1..] == ms[i + 1..];
        var read := ReadOne(names, ms[i]);
        if read.None? { return None; }
        names := read.value;
      }
      r := Some(names);
  }

  // ---------- the report ----------

  datatype Report = Report(code: SuccessCode, qualified: bool)

  /** What the status objects name: their codes, and everything with the messages beside them. */
  datatype Tally = Tally(codes: Names, named: Names)

  function ReadStatus(t: Tally, status: Option<Status>): Option<Tally> {
    if status.None? then Some(t)
    else
      match ReadInfo(status.value.info)
      case None => None
      case Some(messages) =>
        if status.value.code.None? then None
        else
          match CodeOf(status.value.code.value)
          case None => None
          case Some(c) => Some(Tally(Name(t.codes, c), AddNames(t.named, messages)))
  }

  function Conclude(body: Names, t: Tally): Option<Report> {
    var named := AddNames(t.named, t.codes);
    if t.codes.code.None? && !body.listed then None
    else
      var code := if t.codes.code.Some? then t.codes.code else body.code;
      var mixed := if code == Some(NoOperation) then named.code != Some(NoOperation) else named.noOperation;
      Some(Report(if code.Some? then code.value else Success, code.None? || named.other || mixed))
  }

  function ReportOf(b: Body): Option<Report> {
    match ReadInfo(b.info)
    case None => None
    case Some(body) =>
      match ReadStatus(Tally(NOTHING, body), b.error)
      case None => None
      case Some(t) =>
        match ReadStatus(t, b.success)
        case None => None
        case Some(t) => Conclude(body, t)
  }

  function SuccessCodeOf(b: Body): Option<SuccessCode> {
    var r := ReportOf(b);
    if r.None? then None else Some(r.value.code)
  }

  function StrictSuccessCodeOf(b: Body): Option<SuccessCode> {
    var r := ReportOf(b);
    if r.None? || r.value.qualified then None else Some(r.value.code)
  }

  /** The reading of a body, with the loop over its two status objects. */
  method ReadReport(b: Body) returns (r: Option<Report>)
    ensures r == ReportOf(b)
  {
    var body := ReadMessages(b.info);
    if body.None? { return None; }
    var tally := Tally(NOTHING, body.value);
    var statuses := [b.error, b.success];
    ghost var first := ReadStatus(tally, b.error);
    for i := 0 to 2
      invariant i == 0 ==> tally == Tally(NOTHING, body.value)
      invariant i == 1 ==> first == Some(tally)
      invariant i == 2 ==> first.Some? && ReadStatus(first.value, b.success) == Some(tally)
    {
      if statuses[i].Some? {
        var status := statuses[i].value;
        var messages := ReadMessages(status.info);
        if messages.None? { return None; }
        if status.code.None? { return None; }
        var c := CodeOf(status.code.value);
        if c.None? { return None; }
        tally := Tally(Name(tally.codes, c.value), AddNames(tally.named, messages.value));
      }
    }
    r := Conclude(body.value, tally);
  }

  // ---------- what a body says, read as a set of claims ----------

  ghost predicate Names1(m: Message, c: SuccessCode) {
    m.id.Some? && CodeOf(m.id.value) == Some(c)
  }

  ghost predicate Ruinous(m: Message) { Critical(m) || m.id.None? }

  /** A message beside the point: it names no outcome, or one it is too severe for. */
  ghost predicate Qualifies(m: Message) {
    m.id.Some? && (CodeOf(m.id.value).None? || TooSevere(m, CodeOf(m.id.value).value))
  }

  ghost function MessagesOf(info: Info): seq<Message> {
    if info.Listed? then info.messages else []
  }

  /** The codes that a message, or any of several, names. */
  ghost function Named(m: Message): set<SuccessCode> {
    set c: SuccessCode | Names1(m, c)
  }

  ghost predicate Mentions(ms: seq<Message>, c: SuccessCode) { exists m :: m in ms && Names1(m, c) }

  ghost function Mentioned(ms: seq<Message>): set<SuccessCode> {
    set c: SuccessCode | Mentions(ms, c)
  }

  ghost predicate AnyRuinous(ms: seq<Message>) { exists m :: m in ms && Ruinous(m) }

  ghost predicate AnyQualifies(ms: seq<Message>) { exists m :: m in ms && Qualifies(m) }

  /** `Created`, else `ResetRequired`, else `Success`, else `NoOperation`. */
  ghost function Foremost(codes: set<SuccessCode>): Option<SuccessCode> {
    if Created in codes then Some(Created)
    else if ResetRequired in codes then Some(ResetRequired)
    else if Success in codes then Some(Success)
    else if NoOperation in codes then Some(NoOperation)
    else None
  }

  /** What has been named, said without the order it came in. */
  ghost predicate Sums(n: Names, codes: set<SuccessCode>, qualified: bool) {
    n.code == Foremost(codes) && n.noOperation == (NoOperation in codes) && n.other == qualified
  }

  lemma MentionedHead(ms: seq<Message>)
    requires ms != []
    ensures Mentioned(ms) == Named(ms[0]) + Mentioned(ms[1..])
    ensures AnyRuinous(ms) <==> Ruinous(ms[0]) || AnyRuinous(ms[1..])
    ensures AnyQualifies(ms) <==> Qualifies(ms[0]) || AnyQualifies(ms[1..])
  {
  }

  lemma ReadOneMeans(n: Names, m: Message, codes: set<SuccessCode>, qualified: bool)
    requires Sums(n, codes, qualified) && !Ruinous(m)
    ensures ReadOne(n, m).Some? && ReadOne(n, m).value.listed == n.listed
    ensures Sums(ReadOne(n, m).value, codes + Named(m), qualified || Qualifies(m))
  {
    hide CodeOf, TooSevere;
    if CodeOf(m.id.value).Some? {
      NameMeans(n, CodeOf(m.id.value).value, codes, qualified);
      assert Named(m) == {CodeOf(m.id.value).value};
    } else {
      assert Named(m) == {};
    }
  }

  /** Reading messages one by one adds up to what they name as a set. */
  lemma {:induction false} ReadAllMeans(n: Names, ms: seq<Message>, codes: set<SuccessCode>, qualified: bool)
    requires Sums(n, codes, qualified)
    ensures ReadAll(n, ms).None? <==> AnyRuinous(ms)
    ensures ReadAll(n, ms).Some? ==>
              && ReadAll(n, ms).value.listed == n.listed
              && Sums(ReadAll(n, ms).value, codes + Mentioned(ms), qualified || AnyQualifies(ms))
    decreases |ms|
  {
    hide Sums, ReadOne, Named, Mentioned, Ruinous, AnyRuinous, Qualifies, AnyQualifies;
    if ms == [] {
      NoMessages();
      assert codes + Mentioned(ms) == codes;
    } else {
      MentionedHead(ms);
      RuinousStops(n, ms[0]);
      if !Ruinous(ms[0]) {
        ReadOneMeans(n, ms[0], codes, qualified);
        var k := ReadOne(n, ms[0]).value;
        ReadAllMeans(k, ms[1..], codes + Named(ms[0]), qualified || Qualifies(ms[0]));
        assert codes + Mentioned(ms) == (codes + Named(ms[0])) + Mentioned(ms[1..]);
      }
    }
  }

  lemma NoMessages()
    ensures Mentioned([]) == {} && !AnyRuinous([]) && !AnyQualifies([])
  {
  }

  lemma RuinousStops(n: Names, m: Message)
    ensures ReadOne(n, m).None? <==> Ruinous(m)
  {
  }

  lemma ReadInfoMeans(info: Info)
    ensures ReadInfo(info).None? <==> info.Malformed? || AnyRuinous(MessagesOf(info))
    ensures ReadInfo(info).Some? ==>
              && ReadInfo(info).value.listed == info.Listed?
              && Sums(ReadInfo(info).value, Mentioned(MessagesOf(info)), AnyQualifies(MessagesOf(info)))
  {
    var ms := MessagesOf(info);
    ReadAllMeans(NOTHING.(listed := info.Listed?), ms, {}, false);
    assert {} + Mentioned(ms) == Mentioned(ms);
  }

  lemma NameMeans(n: Names, c: SuccessCode, codes: set<SuccessCode>, qualified: bool)
    requires Sums(n, codes, qualified)
    ensures Sums(Name(n, c), codes + {c}, qualified)
  {
  }

  lemma AddNamesMeans(n: Names, o: Names, a: set<SuccessCode>, b: set<SuccessCode>, p: bool, q: bool)
    requires Sums(n, a, p) && Sums(o, b, q)
    ensures Sums(AddNames(n, o), a + b, p || q)
  {
  }

  // ---------- the reference reading ----------

  /** A status object that reports no success, or whose messages rule one out. */
  ghost predicate Fails(s: Status) {
    || s.info.Malformed? || AnyRuinous(MessagesOf(s.info))
    || s.code.None? || CodeOf(s.code.value).None?
  }

  ghost function CodeIn(s: Option<Status>): set<SuccessCode> {
    if s.None? || s.value.code.None? || CodeOf(s.value.code.value).None? then {} else {CodeOf(s.value.code.value).value}
  }

  ghost function StatusCodes(b: Body): set<SuccessCode> {
    CodeIn(b.error) + CodeIn(b.success)
  }

  /** Everything the body names, in status codes and messages. */
  ghost function AllNamed(b: Body): set<SuccessCode> {
    Mentioned(MessagesOf(b.info)) + StatusCodes(b) + OfStatus(b.error) + OfStatus(b.success)
  }

  ghost function OfStatus(s: Option<Status>): set<SuccessCode> {
    if s.None? then {} else Mentioned(MessagesOf(s.value.info))
  }

  ghost predicate QualifiedBy(s: Option<Status>) {
    s.Some? && AnyQualifies(MessagesOf(s.value.info))
  }

  /** The body is not a success message, or its messages make it not a success. */
  ghost predicate NotASuccess(b: Body) {
    || b.info.Malformed? || AnyRuinous(MessagesOf(b.info))
    || (b.error.Some? && Fails(b.error.value))
    || (b.success.Some? && Fails(b.success.value))
    || (b.error.None? && b.success.None? && !b.info.Listed?)
  }

  /** The outcome the body names itself, if any. */
  ghost function Outcome(b: Body): Option<SuccessCode> {
    if b.error.Some? || b.success.Some? then Foremost(StatusCodes(b)) else Foremost(Mentioned(MessagesOf(b.info)))
  }

  lemma ReadStatusMeans(t: Tally, s: Option<Status>, codes: set<SuccessCode>, named: set<SuccessCode>, qualified: bool)
    requires Sums(t.codes, codes, false) && Sums(t.named, named, qualified)
    ensures ReadStatus(t, s).None? <==> s.Some? && Fails(s.value)
    ensures ReadStatus(t, s).Some? ==>
              var u := ReadStatus(t, s).value;
              && Sums(u.codes, codes + CodeIn(s), false)
              && Sums(u.named, named + OfStatus(s), qualified || QualifiedBy(s))
  {
    hide CodeOf, Sums, Mentioned, AnyRuinous, AnyQualifies, ReadInfo, AddNames, Name;
    if s.None? {
      assert codes + CodeIn(s) == codes && named + OfStatus(s) == named;
    } else {
      ReadInfoMeans(s.value.info);
      if !Fails(s.value) {
        var c := CodeOf(s.value.code.value).value;
        NameMeans(t.codes, c, codes, false);
        var ms := MessagesOf(s.value.info);
        AddNamesMeans(t.named, ReadInfo(s.value.info).value, named, Mentioned(ms), qualified, AnyQualifies(ms));
      }
    }
  }

  /** The lenient code is the outcome the body names, `Success` when it names none, and none at all just
      when the body is not a success. The strict code is the same one, and is given just when the body
      names its outcome, every message names one it is not too severe for, and `NoOperation` is not
      named beside another code. */
  lemma ReportMeans(b: Body)
    ensures SuccessCodeOf(b).None? <==> NotASuccess(b)
    ensures !NotASuccess(b) ==>
              && SuccessCodeOf(b) == Some(if Outcome(b).Some? then Outcome(b).value else Success)
              && (StrictSuccessCodeOf(b).Some? <==>
                    && Outcome(b).Some?
                    && !AnyQualifies(MessagesOf(b.info)) && !QualifiedBy(b.error) && !QualifiedBy(b.success)
                    && (NoOperation in AllNamed(b) ==> AllNamed(b) == {NoOperation}))
    ensures StrictSuccessCodeOf(b).Some? ==> StrictSuccessCodeOf(b) == SuccessCodeOf(b)
  {
    hide CodeOf, Mentioned, AnyRuinous, AnyQualifies, ReadInfo, ReadStatus, AddNames, Name;
    ReadInfoMeans(b.info);
    if ReadInfo(b.info).Some? {
      var body := ReadInfo(b.info).value;
      var (ms, q) := (Mentioned(MessagesOf(b.info)), AnyQualifies(MessagesOf(b.info)));
      ReadStatusMeans(Tally(NOTHING, body), b.error, {}, ms, q);
      if ReadStatus(Tally(NOTHING, body), b.error).Some? {
        var t := ReadStatus(Tally(NOTHING, body), b.error).value;
        ReadStatusMeans(t, b.success, {} + CodeIn(b.error), ms + OfStatus(b.error), q || QualifiedBy(b.error));
        if ReadStatus(t, b.success).Some? {
          var u := ReadStatus(t, b.success).value;
          ConcludeMeans(b, body, u);
        }
      }
    }
  }

  lemma ConcludeMeans(b: Body, body: Names, u: Tally)
    requires !NotASuccess(b) || (b.error.None? && b.success.None? && !b.info.Listed?)
    requires body.listed == b.info.Listed?
    requires Sums(body, Mentioned(MessagesOf(b.info)), AnyQualifies(MessagesOf(b.info)))
    requires Sums(u.codes, ({} + CodeIn(b.error)) + CodeIn(b.success), false)
    requires Sums(u.named, Mentioned(MessagesOf(b.info)) + OfStatus(b.error) + OfStatus(b.success),
                  AnyQualifies(MessagesOf(b.info)) || QualifiedBy(b.error) || QualifiedBy(b.success))
    ensures Conclude(body, u).None? <==> b.error.None? && b.success.None? && !b.info.Listed?
    ensures Conclude(body, u).Some? ==>
              var r := Conclude(body, u).value;
              && r.code == (if Outcome(b).Some? then Outcome(b).value else Success)
              && (!r.qualified <==>
                    && Outcome(b).Some?
                    && !AnyQualifies(MessagesOf(b.info)) && !QualifiedBy(b.error) && !QualifiedBy(b.success)
                    && (NoOperation in AllNamed(b) ==> AllNamed(b) == {NoOperation}))
  {
    hide CodeOf, Mentioned, AnyRuinous, AnyQualifies, AddNames;
    var codes := StatusCodes(b);
    assert ({} + CodeIn(b.error)) + CodeIn(b.success) == codes;
    var said := Mentioned(MessagesOf(b.info)) + OfStatus(b.error) + OfStatus(b.success);
    var q := AnyQualifies(MessagesOf(b.info)) || QualifiedBy(b.error) || QualifiedBy(b.success);
    AddNamesMeans(u.named, u.codes, said, codes, q, false);
    assert said + codes == AllNamed(b);
    OnlyNoOperation(AllNamed(b));
    ForemostIsNamed(codes);
    ForemostIsNamed(Mentioned(MessagesOf(b.info)));
    if b.error.Some? { assert CodeOf(b.error.value.code.value).value in codes; }
    if b.success.Some? { assert CodeOf(b.success.value.code.value).value in codes; }
  }

  // ---------- which IDs name a code ----------

  lemma {:induction false} KeyAfter(a: string, key: string)
    requires '.' !in key
    ensures Key(a + "." + key) == key
    decreases |a|
  {
    var id := a + "." + key;
    assert id[|a|] == '.';
    if a == "" {
      assert id[1..] == key;
    } else {
      assert id[1..] == a[1..] + "." + key;
      KeyAfter(a[1..], key);
    }
  }

  lemma {:induction false} RegistryBefore(a: string, rest: string)
    requires '.' !in a
    ensures Registry(a + "." + rest) == a
    decreases |a|
  {
    var id := a + "." + rest;
    if a != "" {
      assert id[1..] == a[1..] + "." + rest;
      RegistryBefore(a[1..], rest);
    }
  }

  lemma {:induction false} RegistryIsFirst(id: string)
    ensures '.' !in Registry(id)
    ensures if '.' in id then Registry(id) + "." <= id else Registry(id) == id
    decreases |id|
  {
    if id != "" && id[0] != '.' { RegistryIsFirst(id[1..]); }
  }

  /** The text before the first point of an ID is `Base` just when the ID starts with `Base.`. */
  lemma BaseIsFirst(a: string, key: string)
    ensures Registry(a + "." + key) == "Base" <==> a == "Base" || "Base." <= a
  {
    hide Registry;
    var id := a + "." + key;
    if "Base." <= a { assert a[4] == '.'; }
    if '.' !in a {
      RegistryBefore(a, key);
    } else {
      RegistryIsFirst(a);
      var x := Registry(a);
      var rest := a[|x| + 1..];
      assert a == x + "." + rest && id == x + "." + (rest + "." + key);
      RegistryBefore(x, rest + "." + key);
      if "Base." <= a {
        assert a == "Base" + "." + a[5..];
        RegistryBefore("Base", a[5..]);
      }
    }
  }

  /** Every ID is a bare key, or a key behind its last point. */
  lemma {:induction false} KeyIsLast(id: string) returns (a: string)
    ensures '.' !in Key(id)
    ensures if '.' in id then id == a + "." + Key(id) else id == Key(id)
    decreases |id|
  {
    a := "";
    if '.' in id {
      if '.' in id[1..] {
        a := KeyIsLast(id[1..]);
        a := [id[0]] + a;
        assert id == [id[0]] + id[1..];
      } else {
        assert id == [id[0]] + id[1..];
      }
    }
  }

  /** The codes by the text of an ID: the key decides, and for `ResetRequired` so does the registry. */
  lemma IdNames(a: string, key: string)
    requires '.' !in key
    ensures var c := CodeOf(a + "." + key);
            && (c == Some(Success) <==> key == "Success")
            && (c == Some(Created) <==> key == "Created")
            && (c == Some(NoOperation) <==> key == "NoOperation")
            && (c == Some(ResetRequired) <==> key == "ResetRequired" && (a == "Base" || "Base." <= a))
  {
    hide Key, Registry;
    KeyAfter(a, key);
    BaseIsFirst(a, key);
  }

  /** The same for an ID without a registry, which is never the Base registry's. */
  lemma BareIdNames(key: string)
    requires '.' !in key
    ensures var c := CodeOf(key);
            && (c == Some(Success) <==> key == "Success")
            && (c == Some(Created) <==> key == "Created")
            && (c == Some(NoOperation) <==> key == "NoOperation")
            && c != Some(ResetRequired)
  {
    hide Registry;
    RegistryIsFirst(key);
  }

  /** A body of nothing but a status object with that code, under either name, reports what its text
      names, and strictly so. */
  lemma StatusReads(a: string, key: string, b: Body)
    requires '.' !in key && b.info == Absent
    requires var status := Some(Status(Some(a + "." + key), Absent));
             (b.error == status && b.success == None) || (b.error == None && b.success == status)
    ensures SuccessCodeOf(b) == StrictSuccessCodeOf(b)
    ensures var c := SuccessCodeOf(b);
            && (c == Some(Success) <==> key == "Success")
            && (c == Some(Created) <==> key == "Created")
            && (c == Some(NoOperation) <==> key == "NoOperation")
            && (c == Some(ResetRequired) <==> key == "ResetRequired" && (a == "Base" || "Base." <= a))
  {
    hide CodeOf;
    IdNames(a, key);
    var c := CodeOf(a + "." + key);
    assert ReadInfo(Absent) == Some(NOTHING);
    assert ReadStatus(Tally(NOTHING, NOTHING), None) == Some(Tally(NOTHING, NOTHING));
  }

  /** The severities a message that names the code may carry. */
  ghost predicate Mild(c: SuccessCode, severity: Option<string>) {
    match severity
    case None => true
    case Some(s) => s == "OK" || (s == "Warning" && c in {NoOperation, ResetRequired})
  }

  /** A body of one message: none if it is critical or has no ID, else what its ID names, or `Success`;
      strictly, if neither severity is worse than the code allows. */
  lemma OneMessageReads(id: Option<string>, first: Option<string>, second: Option<string>)
    ensures var b := Body(Listed([Message(id, first, second)]), None, None);
            var critical := first == Some("Critical") || second == Some("Critical");
            var c := if id.Some? then CodeOf(id.value) else None;
            && SuccessCodeOf(b) == (if critical || id.None? then None else Some(if c.Some? then c.value else Success))
            && StrictSuccessCodeOf(b) ==
               if !critical && c.Some? && Mild(c.value, first) && Mild(c.value, second) then c else None
  {
    hide CodeOf;
    var m := Message(id, first, second);
    assert [m][1..] == [];
    assert ReadInfo(Listed([m])) == ReadAll(NOTHING.(listed := true), [m]);
    if ReadOne(NOTHING.(listed := true), m).Some? {
      assert ReadAll(ReadOne(NOTHING.(listed := true), m).value, []).Some?;
    }
  }

  // ---------- beside what is documented ----------

  /** When a strict code is documented to be given: `NoOperation` is not named beside `Success` or
      `Created`. */
  ghost predicate DocumentedStrict(b: Body) {
    && !NotASuccess(b) && Outcome(b).Some?
    && !AnyQualifies(MessagesOf(b.info)) && !QualifiedBy(b.error) && !QualifiedBy(b.success)
    && !(NoOperation in AllNamed(b) && (Success in AllNamed(b) || Created in AllNamed(b)))
  }

  /** The code gives one just when that holds and `NoOperation` is not named beside `ResetRequired`. */
  lemma StricterThanDocumented(b: Body)
    ensures StrictSuccessCodeOf(b).Some? <==>
            DocumentedStrict(b) && !(NoOperation in AllNamed(b) && ResetRequired in AllNamed(b))
  {
    hide StrictSuccessCodeOf, SuccessCodeOf, NotASuccess, Outcome, AllNamed, AnyQualifies, QualifiedBy;
    ReportMeans(b);
    StrictNeedsLenient(b);
    OnlyNoOperation(AllNamed(b));
  }

  /** A message ID of version 1.8 of the Base registry. */
  function BaseId(key: string): string { "Base" + "." + ("1.8" + "." + key) }

  lemma BaseIdParts(key: string)
    requires '.' !in key
    ensures Key(BaseId(key)) == key && Registry(BaseId(key)) == "Base"
  {
    hide Key, Registry;
    RegistryBefore("Base", "1.8" + "." + key);
    assert BaseId(key) == ("Base" + "." + "1.8") + "." + key;
    KeyAfter("Base" + "." + "1.8", key);
  }

  /** A reset is required, and a message beside it says that part of the request did nothing. */
  const PARTIAL_RESET :=
    Body(Absent, Some(Status(Some(BaseId("ResetRequired")), Listed([Message(Some(BaseId("NoOperation")), None, None)]))), None)

  /** `ResetRequired` to the lenient reader; the strict one refuses, although it is documented not to. */
  lemma PartialResetIsRefused()
    ensures SuccessCodeOf(PARTIAL_RESET) == Some(ResetRequired)
    ensures StrictSuccessCodeOf(PARTIAL_RESET) == None
    ensures DocumentedStrict(PARTIAL_RESET)
  {
    hide Key, Registry, BaseId, SuccessCodeOf, StrictSuccessCodeOf, DocumentedStrict;
    BaseIdParts("ResetRequired");
    BaseIdParts("NoOperation");
    PartialReset(PARTIAL_RESET, Message(Some(BaseId("NoOperation")), None, None));
  }

  lemma PartialReset(b: Body, m: Message)
    requires m.id.Some? && CodeOf(m.id.value) == Some(NoOperation) && m.messageSeverity.None? && m.severity.None?
    requires b.info.Absent? && b.success.None? && b.error.Some? && b.error.value.info == Listed([m])
    requires b.error.value.code.Some? && CodeOf(b.error.value.code.value) == Some(ResetRequired)
    ensures SuccessCodeOf(b) == Some(ResetRequired) && StrictSuccessCodeOf(b) == None && DocumentedStrict(b)
  {
    hide CodeOf;
    MentionedHead([m]);
    NoMessages();
    assert Named(m) == {NoOperation};
    assert [m][1..] == [];
    assert AllNamed(b) == {NoOperation, ResetRequired};
    ReportMeans(b);
    StricterThanDocumented(b);
  }

  lemma ForemostIsNamed(codes: set<SuccessCode>)
    ensures Foremost(codes).None? ==> codes == {}
    ensures Foremost(codes).Some? ==> Foremost(codes).value in codes
  {
    if Foremost(codes).None? {
      forall c: SuccessCode ensures c !in codes {
        match c case Success => case Created => case NoOperation => case ResetRequired =>
      }
    }
  }

  lemma OnlyNoOperation(codes: set<SuccessCode>)
    ensures codes == {NoOperation} <==> Foremost(codes) == Some(NoOperation)
  {
    if Foremost(codes) == Some(NoOperation) {
      forall c | c in codes ensures c == NoOperation { }
    }
  }

  // ---------- what follows ----------

  /** The same array up to order and repetition. */
  ghost predicate Alike(a: Info, b: Info) {
    || a == b
    || (a.Listed? && b.Listed? && forall m :: m in a.messages <==> m in b.messages)
  }

  ghost predicate AlikeStatus(a: Option<Status>, b: Option<Status>) {
    (a.None? && b.None?) || (a.Some? && b.Some? && a.value.code == b.value.code && Alike(a.value.info, b.value.info))
  }

  lemma AlikeMessages(a: Info, b: Info)
    requires Alike(a, b)
    ensures Mentioned(MessagesOf(a)) == Mentioned(MessagesOf(b))
    ensures AnyRuinous(MessagesOf(a)) <==> AnyRuinous(MessagesOf(b))
    ensures AnyQualifies(MessagesOf(a)) <==> AnyQualifies(MessagesOf(b))
    ensures a.Listed? <==> b.Listed?
    ensures a.Malformed? <==> b.Malformed?
  {
  }

  /** Neither code depends on the order of any message array, or on repetitions in it. */
  lemma OrderDoesNotMatter(a: Body, b: Body)
    requires Alike(a.info, b.info) && AlikeStatus(a.error, b.error) && AlikeStatus(a.success, b.success)
    ensures SuccessCodeOf(a) == SuccessCodeOf(b)
    ensures StrictSuccessCodeOf(a) == StrictSuccessCodeOf(b)
  {
    hide SuccessCodeOf, StrictSuccessCodeOf, CodeOf, Mentioned, AnyRuinous, AnyQualifies, Foremost, Alike;
    ReportMeans(a);
    ReportMeans(b);
    AlikeMessages(a.info, b.info);
    if a.error.Some? { AlikeMessages(a.error.value.info, b.error.value.info); }
    if a.success.Some? { AlikeMessages(a.success.value.info, b.success.value.info); }
  }

  lemma PermutedIsAlike(a: seq<Message>, b: seq<Message>)
    requires multiset(a) == multiset(b)
    ensures Alike(Listed(a), Listed(b))
  {
    forall m ensures m in a <==> m in b {
      assert m in a <==> m in multiset(a);
      assert m in b <==> m in multiset(b);
    }
  }

  /** The arrays of a body. */
  datatype Place = InBody | InError | InSuccess

  ghost function InfoAt(b: Body, p: Place): Info {
    match p
    case InBody => b.info
    case InError => if b.error.None? then Absent else b.error.value.info
    case InSuccess => if b.success.None? then Absent else b.success.value.info
  }

  /** The body with a message added somewhere in an array it has. */
  ghost function WithMessage(b: Body, p: Place, i: nat, m: Message): Body
    requires InfoAt(b, p).Listed? && i <= |InfoAt(b, p).messages|
  {
    var ms := InfoAt(b, p).messages;
    var info := Listed(ms[..i] + [m] + ms[i..]);
    match p
    case InBody => b.(info := info)
    case InError => b.(error := Some(b.error.value.(info := info)))
    case InSuccess => b.(success := Some(b.success.value.(info := info)))
  }

  /** A critical message, or one without an ID, in any array makes the body not a success. */
  lemma RuinousMessageRules(b: Body, p: Place, m: Message)
    requires Ruinous(m) && m in MessagesOf(InfoAt(b, p))
    ensures SuccessCodeOf(b) == None && StrictSuccessCodeOf(b) == None
  {
    ReportMeans(b);
  }

  lemma Inserted(ms: seq<Message>, i: nat, m: Message)
    requires i <= |ms|
    ensures var more := ms[..i] + [m] + ms[i..];
            && Mentioned(more) == Mentioned(ms) + Named(m)
            && (AnyRuinous(more) <==> AnyRuinous(ms) || Ruinous(m))
            && (AnyQualifies(more) <==> AnyQualifies(ms) || Qualifies(m))
  {
  }

  /** A message from another registry that is not critical leaves the lenient code alone and takes the
      strict one away. */
  lemma ForeignMessage(b: Body, p: Place, i: nat, m: Message)
    requires InfoAt(b, p).Listed? && i <= |InfoAt(b, p).messages|
    requires !Critical(m) && m.id.Some? && CodeOf(m.id.value).None?
    ensures SuccessCodeOf(WithMessage(b, p, i, m)) == SuccessCodeOf(b)
    ensures StrictSuccessCodeOf(WithMessage(b, p, i, m)) == None
  {
    hide SuccessCodeOf, StrictSuccessCodeOf, CodeOf, Mentioned, AnyRuinous, AnyQualifies, Foremost;
    var c := WithMessage(b, p, i, m);
    ReportMeans(b);
    ReportMeans(c);
    Inserted(InfoAt(b, p).messages, i, m);
    assert Named(m) == {};
    assert Mentioned(MessagesOf(InfoAt(c, p))) == Mentioned(MessagesOf(InfoAt(b, p)));
    StrictNeedsLenient(c);
  }

  lemma StrictNeedsLenient(b: Body)
    ensures SuccessCodeOf(b).None? ==> StrictSuccessCodeOf(b).None?
  {
  }
}
