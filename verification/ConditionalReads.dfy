/** Conditional reads over the shared cache: many reads, each of which looks in the cache, waits for
    the server with no lock held and then concludes, interleaved with each other and with the server
    changing its resources. */
module ConditionalReads {
  import opened Wrappers
  import opened CarSpec
  import opened CarProperties
  import opened CarMap
  import opened CarAccesses
  import opened CarCaches

  type Url = string
  type ETag = string
  type Kind = nat      // the Rust type a caller reads a document as
  type Repair = nat    // the rewrite a caller applies to documents first

  /** What the server holds under a URL. */
  datatype Representation = Representation(etag: Option<ETag>, document: string)

  /** What a caller gets: a document repaired and read as some type. */
  datatype Entity = Entity(kind: Kind, etag: Option<ETag>, content: string)

  datatype Response = Full(representation: Representation) | NotModified | Failed

  datatype Failure = CacheMiss | DecodeFailure | Transport

  type Decoder = (Kind, Repair, Representation) -> Option<Entity>

  // ---------- the two critical sections of a read ----------

  /** The lookup before the request. A cached value of another type counts as absent, but the lookup
      has still marked its page as used. */
  function LookUpTyped(cache: Car<Url, Entity>, enabled: bool, url: Url, kind: Kind): (Car<Url, Entity>, Option<Entity>) {
    if !enabled then (cache, None)
    else
      var (after, found) := Get(cache, url);
      (after, if found.Some? && found.value.kind == kind then found else None)
  }

  /** The end of a read: the value it returns, and the cache after it. */
  function Conclude(cache: Car<Url, Entity>, enabled: bool, decode: Decoder, url: Url, kind: Kind, repair: Repair,
                    cached: Option<Entity>, response: Response): (Car<Url, Entity>, Result<Entity, Failure>)
    requires cache.p <= cache.c
  {
    match response
    case Full(representation) =>
      (match decode(kind, repair, representation)
       case None => (cache, Err(DecodeFailure))
       case Some(entity) =>
         (if enabled && entity.etag.Some? then Put(cache, url, entity).state else cache, Ok(entity)))
    case NotModified =>
      (cache, if cached.Some? then Ok(cached.value) else Err(CacheMiss))
    case Failed =>
      (cache, Err(Transport))
  }

  class HttpBmc {
    const cache: CarCache<Url, Entity>
    const cacheEnabled: bool

    ghost predicate Valid()
      reads this, cache, cache.t1, cache.t2, cache.b1, cache.b2
    {
      cache.Valid() && cacheEnabled == (cache.c > 0)
    }

    constructor (capacity: nat)
      ensures Valid() && cache.Abs() == Empty(capacity)
    {
      cache := new CarCache<Url, Entity>(capacity);
      cacheEnabled := capacity > 0;
    }

    /** From the call to the request: the ETag sent is the one of the value kept for a 304. */
    method BeginGet(url: Url, kind: Kind) returns (cached: Option<Entity>, etag: Option<ETag>)
      requires Valid()
      modifies cache.t1, cache.t2
      ensures Valid()
      ensures (cache.Abs(), cached) == LookUpTyped(old(cache.Abs()), cacheEnabled, url, kind)
      ensures etag == if cached.Some? then cached.value.etag else None
    {
      cached := None;
      if cacheEnabled {
        var found := cache.Get(url);
        if found.Some? && found.value.kind == kind {
          cached := found;
        }
      }
      etag := if cached.Some? then cached.value.etag else None;
    }

    /** From the response to the return. */
    method FinishGet(decode: Decoder, url: Url, kind: Kind, repair: Repair, cached: Option<Entity>, response: Response)
      returns (result: Result<Entity, Failure>)
      requires Valid()
      modifies cache, cache.t1, cache.t2, cache.b1, cache.b2
      ensures Valid()
      ensures (cache.Abs(), result) ==
              Conclude(old(cache.Abs()), cacheEnabled, decode, url, kind, repair, cached, response)
    {
      match response
      case Full(representation) =>
        var decoded := decode(kind, repair, representation);
        if decoded.None? {
          result := Err(DecodeFailure);
        } else if !cacheEnabled {
          result := Ok(decoded.value);
        } else {
          if decoded.value.etag.Some? {
            var _ := cache.Put(url, decoded.value);
          }
          result := Ok(decoded.value);
        }
      case NotModified =>
        result := if cached.Some? then Ok(cached.value) else Err(CacheMiss);
      case Failed =>
        result := Err(Transport);
    }
  }

  // ---------- the world: all reads, the cache and the server ----------

  datatype Read =
    | Waiting(url: Url, kind: Kind, repair: Repair, cached: Option<Entity>)
    | Answered(url: Url, kind: Kind, repair: Repair, cached: Option<Entity>, response: Response,
               current: Option<Representation>)
    | Done(url: Url, kind: Kind, repair: Repair, cached: Option<Entity>, response: Response,
           current: Option<Representation>, result: Result<Entity, Failure>)

  datatype World = World(
    server: map<Url, Representation>,
    cache: Car<Url, Entity>,
    calls: map<nat, Read>)

  datatype Action =
    | Begin(id: nat, url: Url, kind: Kind, repair: Repair)
    | ServerSets(url: Url, representation: Representation)
    | ServerDrops(url: Url)
    | Answer(id: nat, response: Response)
    | Resume(id: nat)

  /** How documents are read, and what each ETag of each resource stands for. */
  datatype Setting = Setting(decode: Decoder, meaning: (Url, ETag) -> Representation)

  /** A decoded entity has the type asked for, and an ETag only if it is that of its representation. */
  ghost predicate Sane(g: Setting) {
    forall kind, repair, rep :: g.decode(kind, repair, rep).Some? ==>
      var entity := g.decode(kind, repair, rep).value;
      entity.kind == kind && (entity.etag.Some? ==> entity.etag == rep.etag)
  }

  /** Equal ETags of one resource mean equal representations. */
  ghost predicate Faithful(g: Setting, url: Url, rep: Representation) {
    rep.etag.Some? ==> rep == g.meaning(url, rep.etag.value)
  }

  /** What a server may answer: its current representation, a 304 only when the ETag sent is the
      current one (section 13.1.2 of RFC 9110), or a failure at any time. */
  ghost predicate MayAnswer(server: map<Url, Representation>, url: Url, cached: Option<Entity>, response: Response) {
    match response
    case Full(rep) => url in server && rep == server[url]
    case NotModified =>
      url in server && cached.Some? && cached.value.etag.Some? && server[url].etag == cached.value.etag
    case Failed => true
  }

  ghost predicate Enabled(g: Setting, w: World, a: Action) {
    match a
    case Begin(id, _, _, _) => id !in w.calls
    case ServerSets(url, rep) => Faithful(g, url, rep)
    case ServerDrops(_) => true
    case Answer(id, response) =>
      id in w.calls && w.calls[id].Waiting? && MayAnswer(w.server, w.calls[id].url, w.calls[id].cached, response)
    case Resume(id) => id in w.calls && w.calls[id].Answered?
  }

  /** One atomic step; an action that is not enabled does nothing. */
  ghost function Apply(g: Setting, w: World, a: Action): World
    requires w.cache.p <= w.cache.c
  {
    if !Enabled(g, w, a) then w
    else
      match a
      case Begin(id, url, kind, repair) =>
        var (cache, cached) := LookUpTyped(w.cache, w.cache.c > 0, url, kind);
        w.(cache := cache, calls := w.calls[id := Waiting(url, kind, repair, cached)])
      case ServerSets(url, rep) => w.(server := w.server[url := rep])
      case ServerDrops(url) => w.(server := w.server - {url})
      case Answer(id, response) =>
        var r := w.calls[id];
        var current := if r.url in w.server then Some(w.server[r.url]) else None;
        w.(calls := w.calls[id := Answered(r.url, r.kind, r.repair, r.cached, response, current)])
      case Resume(id) =>
        var r := w.calls[id];
        var (cache, result) :=
          Conclude(w.cache, w.cache.c > 0, g.decode, r.url, r.kind, r.repair, r.cached, r.response);
        w.(cache := cache, calls := w.calls[id := Done(r.url, r.kind, r.repair, r.cached, r.response, r.current, result)])
  }

  // ---------- what every reachable world satisfies ----------

  /** Every allowed repair reads the representation an ETag stands for in the same way, as far as it
      can be cached. */
  ghost predicate RepairsAgree(g: Setting, repairs: set<Repair>) {
    forall url, etag, kind, r1, r2 | r1 in repairs && r2 in repairs ::
      Cacheable(g, kind, r1, url, etag) ==> g.decode(kind, r2, g.meaning(url, etag)) == g.decode(kind, r1, g.meaning(url, etag))
  }

  ghost predicate Cacheable(g: Setting, kind: Kind, repair: Repair, url: Url, etag: ETag) {
    && g.meaning(url, etag).etag == Some(etag)
    && var d := g.decode(kind, repair, g.meaning(url, etag));
    && d.Some? && d.value.etag.Some?
  }

  /** The entity is what some allowed repair makes of the representation its ETag stands for. */
  ghost predicate Genuine(g: Setting, repairs: set<Repair>, url: Url, entity: Entity) {
    && entity.etag.Some?
    && g.meaning(url, entity.etag.value).etag == entity.etag
    && exists r :: r in repairs && g.decode(entity.kind, r, g.meaning(url, entity.etag.value)) == Some(entity)
  }

  ghost predicate ReadOk(g: Setting, repairs: set<Repair>, r: Read) {
    && r.repair in repairs
    && (r.cached.Some? ==> r.cached.value.kind == r.kind && Genuine(g, repairs, r.url, r.cached.value))
    && (r.Answered? ==>
          match r.response
          case Full(rep) => r.current == Some(rep) && Faithful(g, r.url, rep)
          case NotModified =>
            && r.current.Some? && r.cached.Some? && r.current.value.etag == r.cached.value.etag
            && Faithful(g, r.url, r.current.value)
          case Failed => true)
    && (r.Done? ==> Correct(g, r))
  }

  /** A finished read did not miss, and returned what its own repair makes of the representation that
      was current when the server answered. */
  ghost predicate Correct(g: Setting, r: Read)
    requires r.Done?
  {
    && r.result != Err(CacheMiss)
    && (r.result.Ok? ==> r.current.Some? && g.decode(r.kind, r.repair, r.current.value) == Some(r.result.value))
  }

  ghost predicate WorldOk(g: Setting, repairs: set<Repair>, w: World) {
    && Inv(w.cache)
    && (forall url :: url in w.server ==> Faithful(g, url, w.server[url]))
    && (forall url :: url in Contents(w.cache) ==> Genuine(g, repairs, url, Contents(w.cache)[url]))
    && (forall id :: id in w.calls ==> ReadOk(g, repairs, w.calls[id]))
  }

  ghost function Start(capacity: nat): (w: World)
    ensures Inv(w.cache) && Contents(w.cache) == map[]
  {
    var cache: Car<Url, Entity> := Empty(capacity);
    assert Directory(cache) == multiset{};
    World(map[], cache, map[])
  }

  /** A lookup leaves the map as it is and finds what the map binds, if the type fits. */
  lemma BeginStep(g: Setting, repairs: set<Repair>, w: World, a: Action)
    requires WorldOk(g, repairs, w) && a.Begin? && a.repair in repairs && Enabled(g, w, a)
    ensures WorldOk(g, repairs, Apply(g, w, a))
  {
    GetKeepsInv(w.cache, a.url);
    GetReadsMap(w.cache, a.url);
  }

  lemma AnswerStep(g: Setting, repairs: set<Repair>, w: World, a: Action)
    requires WorldOk(g, repairs, w) && a.Answer? && Enabled(g, w, a)
    ensures WorldOk(g, repairs, Apply(g, w, a))
  {
  }

  /** What a read returns on a 304 is what it would have decoded from a full answer. */
  lemma ConcludedCorrectly(g: Setting, repairs: set<Repair>, r: Read, cache: Car<Url, Entity>)
    requires Sane(g) && RepairsAgree(g, repairs) && r.Answered? && ReadOk(g, repairs, r) && cache.p <= cache.c
    ensures var result := Conclude(cache, cache.c > 0, g.decode, r.url, r.kind, r.repair, r.cached, r.response).1;
            ReadOk(g, repairs, Done(r.url, r.kind, r.repair, r.cached, r.response, r.current, result))
  {
  }

  lemma ResumeStep(g: Setting, repairs: set<Repair>, w: World, a: Action)
    requires WorldOk(g, repairs, w) && a.Resume? && Enabled(g, w, a)
    requires Sane(g) && RepairsAgree(g, repairs)
    ensures WorldOk(g, repairs, Apply(g, w, a))
  {
    var r := w.calls[a.id];
    assert ReadOk(g, repairs, r);
    ConcludedCorrectly(g, repairs, r, w.cache);
    if r.response.Full? {
      var d := g.decode(r.kind, r.repair, r.response.representation);
      if d.Some? && w.cache.c > 0 && d.value.etag.Some? {
        assert Genuine(g, repairs, r.url, d.value);
        PutKeepsInv(w.cache, r.url, d.value);
        PutUpdatesMap(w.cache, r.url, d.value);
      }
    }
  }

  lemma StepKeepsWorldOk(g: Setting, repairs: set<Repair>, w: World, a: Action)
    requires WorldOk(g, repairs, w) && Sane(g) && RepairsAgree(g, repairs)
    requires a.Begin? ==> a.repair in repairs
    ensures WorldOk(g, repairs, Apply(g, w, a))
  {
    if Enabled(g, w, a) {
      match a
      case Begin(_, _, _, _) => BeginStep(g, repairs, w, a);
      case Answer(_, _) => AnswerStep(g, repairs, w, a);
      case Resume(_) => ResumeStep(g, repairs, w, a);
      case ServerSets(_, _) =>
      case ServerDrops(_) =>
    }
  }

  /** The cache of a reachable world satisfies its invariant, whatever the actions. */
  lemma StepKeepsCache(g: Setting, w: World, a: Action)
    requires Inv(w.cache)
    ensures Inv(Apply(g, w, a).cache)
  {
    if Enabled(g, w, a) {
      match a
      case Begin(_, url, _, _) => GetKeepsInv(w.cache, url);
      case Resume(id) =>
        var r := w.calls[id];
        if r.response.Full? {
          var d := g.decode(r.kind, r.repair, r.response.representation);
          if d.Some? { PutKeepsInv(w.cache, r.url, d.value); }
        }
      case _ =>
    }
  }

  ghost function RunWorld(g: Setting, capacity: nat, actions: seq<Action>): (w: World)
    ensures Inv(w.cache)
  {
    if actions == [] then Start(capacity)
    else
      var w := RunWorld(g, capacity, actions[..|actions| - 1]);
      StepKeepsCache(g, w, actions[|actions| - 1]);
      Apply(g, w, actions[|actions| - 1])
  }

  ghost predicate Uses(actions: seq<Action>, repairs: set<Repair>) {
    forall i :: 0 <= i < |actions| && actions[i].Begin? ==> actions[i].repair in repairs
  }

  /** Every read that any interleaving finishes is correct. */
  ghost predicate AllReadsCorrect(g: Setting, capacity: nat, repairs: set<Repair>) {
    forall actions: seq<Action>, id: nat ::
      Uses(actions, repairs) && id in RunWorld(g, capacity, actions).calls
      && RunWorld(g, capacity, actions).calls[id].Done?
      ==> Correct(g, RunWorld(g, capacity, actions).calls[id])
  }

  lemma {:induction false} RunKeepsWorldOk(g: Setting, capacity: nat, repairs: set<Repair>, actions: seq<Action>)
    requires Sane(g) && RepairsAgree(g, repairs) && Uses(actions, repairs)
    ensures WorldOk(g, repairs, RunWorld(g, capacity, actions))
  {
    if actions != [] {
      var before := actions[..|actions| - 1];
      assert Uses(before, repairs);
      RunKeepsWorldOk(g, capacity, repairs, before);
      StepKeepsWorldOk(g, repairs, RunWorld(g, capacity, before), actions[|actions| - 1]);
    }
  }

  /** Under every interleaving of reads, evictions and server changes: no 304 ends in a miss, and a
      value returned is what a full answer would have given, if the repairs in use agree. */
  lemma AgreeingRepairsSuffice(g: Setting, capacity: nat, repairs: set<Repair>)
    requires Sane(g) && RepairsAgree(g, repairs)
    ensures AllReadsCorrect(g, capacity, repairs)
  {
    forall actions: seq<Action>, id: nat |
      Uses(actions, repairs) && id in RunWorld(g, capacity, actions).calls
      && RunWorld(g, capacity, actions).calls[id].Done?
      ensures Correct(g, RunWorld(g, capacity, actions).calls[id])
    {
      RunKeepsWorldOk(g, capacity, repairs, actions);
      assert ReadOk(g, repairs, RunWorld(g, capacity, actions).calls[id]);
    }
  }

  // ---------- what a read returns, whatever the repairs ----------

  /** The read was begun and answered as it says, and its result is that of the answer. */
  ghost predicate Traced(g: Setting, actions: seq<Action>, id: nat, r: Read) {
    && Begin(id, r.url, r.kind, r.repair) in actions
    && (!r.Waiting? ==> Answer(id, r.response) in actions)
    && (r.Done? ==>
          match r.response
          case Full(rep) =>
            var d := g.decode(r.kind, r.repair, rep);
            if d.Some? then r.result == Ok(d.value) else r.result == Err(DecodeFailure)
          case NotModified => if r.cached.Some? then r.result == Ok(r.cached.value) else r.result == Err(CacheMiss)
          case Failed => r.result == Err(Transport))
  }

  lemma {:induction false} ReadsAreTraced(g: Setting, capacity: nat, actions: seq<Action>, id: nat)
    requires id in RunWorld(g, capacity, actions).calls
    ensures Traced(g, actions, id, RunWorld(g, capacity, actions).calls[id])
  {
    if actions != [] {
      hide Apply, Traced;
      var (before, a) := (actions[..|actions| - 1], actions[|actions| - 1]);
      assert actions == before + [a];
      var w := RunWorld(g, capacity, before);
      if id in w.calls { ReadsAreTraced(g, capacity, before, id); }
      StepTraces(g, w, before, a, id);
    }
  }

  lemma StepTraces(g: Setting, w: World, before: seq<Action>, a: Action, id: nat)
    requires w.cache.p <= w.cache.c && id in Apply(g, w, a).calls
    requires id in w.calls ==> Traced(g, before, id, w.calls[id])
    ensures Traced(g, before + [a], id, Apply(g, w, a).calls[id])
  {
    hide Put, Get;
    assert a in before + [a];
    assert forall b :: b in before ==> b in before + [a];
  }

  /** Every result is that of the answer the read got: an entity if and only if a full answer decodes to
      it or it was kept for a 304, a decoding failure if and only if a full answer does not decode, a
      transport failure if and only if the request failed, and a miss only on a 304 without a kept value. */
  lemma ResultIsTheAnswers(g: Setting, capacity: nat, actions: seq<Action>, id: nat)
    requires id in RunWorld(g, capacity, actions).calls && RunWorld(g, capacity, actions).calls[id].Done?
    ensures var r := RunWorld(g, capacity, actions).calls[id];
            && Begin(id, r.url, r.kind, r.repair) in actions && Answer(id, r.response) in actions
            && (forall e :: r.result == Ok(e) <==>
                  || (r.response.Full? && g.decode(r.kind, r.repair, r.response.representation) == Some(e))
                  || (r.response == NotModified && r.cached == Some(e)))
            && (r.result == Err(DecodeFailure) <==>
                  r.response.Full? && g.decode(r.kind, r.repair, r.response.representation) == None)
            && (r.result == Err(Transport) <==> r.response == Failed)
            && (r.result == Err(CacheMiss) <==> r.response == NotModified && r.cached == None)
  {
    ReadsAreTraced(g, capacity, actions, id);
  }

  /** A lookup finds what the map binds, if caching is on and the type fits; it marks the page it meets
      even if the type does not. */
  lemma LookUpFinds(cache: Car<Url, Entity>, enabled: bool, url: Url, kind: Kind)
    requires Inv(cache)
    ensures var ((after, found), m) := (LookUpTyped(cache, enabled, url, kind), Contents(cache));
            && found == (if enabled && url in m && m[url].kind == kind then Some(m[url]) else None)
            && Contents(after) == m
            && (if enabled && url in m then Accessed(cache, after, url, Page(url, m[url], true)) else after == cache)
  {
    hide Contents, Directory;
    GetReadsMap(cache, url);
    if enabled && Get(cache, url).1.Some? { ReadMarks(cache, url); }
  }

  /** The end of a read binds the URL to the entity of a full answer with an ETag, if caching is on, and
      otherwise leaves the cache alone. */
  lemma ConcludeStores(cache: Car<Url, Entity>, decode: Decoder, url: Url, kind: Kind, repair: Repair,
                       cached: Option<Entity>, response: Response)
    requires Inv(cache)
    ensures var after := Conclude(cache, cache.c > 0, decode, url, kind, repair, cached, response).0;
            var d := if response.Full? then decode(kind, repair, response.representation) else None;
            if cache.c > 0 && d.Some? && d.value.etag.Some? then
              && url in Contents(after) && Contents(after)[url] == d.value
              && forall u :: u in Contents(after) && u != url ==> u in Contents(cache) && Contents(after)[u] == Contents(cache)[u]
            else after == cache
  {
    if response.Full? {
      var d := decode(kind, repair, response.representation);
      if cache.c > 0 && d.Some? { PutUpdatesMap(cache, url, d.value); }
    }
  }

  // ---------- the condition is exact ----------

  lemma RunSnoc(g: Setting, capacity: nat, actions: seq<Action>, a: Action)
    ensures RunWorld(g, capacity, actions + [a]) == Apply(g, RunWorld(g, capacity, actions), a)
  {
  }

  /** One read fills the cache; it has seen the representation that its ETag stands for. */
  lemma FirstRead(g: Setting, capacity: nat, url: Url, etag: ETag, kind: Kind, r1: Repair) returns (actions: seq<Action>)
    requires Sane(g) && capacity > 0 && Cacheable(g, kind, r1, url, etag)
    ensures Uses(actions, {r1})
    ensures var (w, rep) := (RunWorld(g, capacity, actions), g.meaning(url, etag));
            && w.cache.c > 0 && w.server == map[url := rep] && w.calls.Keys == {0}
            && url in Contents(w.cache) && Some(Contents(w.cache)[url]) == g.decode(kind, r1, rep)
  {
    var rep := g.meaning(url, etag);
    var entity := g.decode(kind, r1, rep).value;
    var w0 := RunWorld(g, capacity, []);
    RunSnoc(g, capacity, [], ServerSets(url, rep));
    var w1 := RunWorld(g, capacity, [] + [ServerSets(url, rep)]);
    RunSnoc(g, capacity, [] + [ServerSets(url, rep)], Begin(0, url, kind, r1));
    var acts2 := [] + [ServerSets(url, rep)] + [Begin(0, url, kind, r1)];
    var w2 := RunWorld(g, capacity, acts2);
    GetReadsMap(w1.cache, url);
    RunSnoc(g, capacity, acts2, Answer(0, Full(rep)));
    var acts3 := acts2 + [Answer(0, Full(rep))];
    RunSnoc(g, capacity, acts3, Resume(0));
    actions := acts3 + [Resume(0)];
    PutUpdatesMap(w2.cache, url, entity);
  }

  /** A second read of the same type, with any repair, is answered by a 304 and returns the same entity. */
  lemma SecondRead(g: Setting, capacity: nat, url: Url, etag: ETag, kind: Kind, r1: Repair, r2: Repair)
    returns (actions: seq<Action>)
    requires Sane(g) && capacity > 0 && Cacheable(g, kind, r1, url, etag)
    ensures Uses(actions, {r1, r2})
    ensures var (w, rep) := (RunWorld(g, capacity, actions), g.meaning(url, etag));
            && 1 in w.calls
            && var entity := g.decode(kind, r1, rep).value;
               w.calls[1] == Done(url, kind, r2, Some(entity), NotModified, Some(rep), Ok(entity))
  {
    hide Put, Get, Contents, RunWorld;
    var acts := FirstRead(g, capacity, url, etag, kind, r1);
    var w := RunWorld(g, capacity, acts);
    var (b, n, r) := (Begin(1, url, kind, r2), Answer(1, NotModified), Resume(1));
    GetReadsMap(w.cache, url);
    RunSnoc(g, capacity, acts, b);
    RunSnoc(g, capacity, acts + [b], n);
    RunSnoc(g, capacity, acts + [b] + [n], r);
    actions := acts + [b] + [n] + [r];
  }

  lemma AgreeingRepairsNeeded(g: Setting, capacity: nat, repairs: set<Repair>)
    requires Sane(g) && capacity > 0 && AllReadsCorrect(g, capacity, repairs)
    ensures RepairsAgree(g, repairs)
  {
    forall url, etag, kind, r1, r2 | r1 in repairs && r2 in repairs && Cacheable(g, kind, r1, url, etag)
      ensures g.decode(kind, r2, g.meaning(url, etag)) == g.decode(kind, r1, g.meaning(url, etag))
    {
      var actions := SecondRead(g, capacity, url, etag, kind, r1, r2);
      assert Uses(actions, repairs);
      assert Correct(g, RunWorld(g, capacity, actions).calls[1]);
    }
  }

  /** With caching disabled no request is conditional and nothing is reused. */
  ghost predicate Uncached(g: Setting, w: World) {
    && w.cache.c == 0
    && forall id :: id in w.calls ==>
         var r := w.calls[id];
         && (!r.Done? ==> r.cached.None?)
         && (r.Answered? ==> !r.response.NotModified? && (r.response.Full? ==> r.current == Some(r.response.representation)))
         && (r.Done? ==> Correct(g, r))
  }

  lemma StartUncached(g: Setting)
    ensures Uncached(g, Start(0))
  {
  }

  lemma StepUncached(g: Setting, w: World, a: Action)
    requires Uncached(g, w) && w.cache.p <= w.cache.c
    ensures Uncached(g, Apply(g, w, a))
  {
  }

  lemma {:induction false} RunUncached(g: Setting, actions: seq<Action>)
    ensures Uncached(g, RunWorld(g, 0, actions))
  {
    hide Uncached, Apply;
    if actions != [] {
      RunUncached(g, actions[..|actions| - 1]);
      StepUncached(g, RunWorld(g, 0, actions[..|actions| - 1]), actions[|actions| - 1]);
    } else {
      StartUncached(g);
    }
  }

  /** Reads are correct under every interleaving if and only if caching is off or the repairs in use
      agree on every representation that can be cached. */
  lemma ReadsCorrectIffRepairsAgree(g: Setting, capacity: nat, repairs: set<Repair>)
    requires Sane(g)
    ensures AllReadsCorrect(g, capacity, repairs) <==> capacity == 0 || RepairsAgree(g, repairs)
  {
    if capacity == 0 {
      forall actions: seq<Action> ensures Uncached(g, RunWorld(g, 0, actions)) {
        RunUncached(g, actions);
      }
    } else if RepairsAgree(g, repairs) {
      AgreeingRepairsSuffice(g, capacity, repairs);
    } else if AllReadsCorrect(g, capacity, repairs) {
      AgreeingRepairsNeeded(g, capacity, repairs);
    }
  }

  /** One repair always agrees with itself: the case of a client that uses a single repair. */
  lemma OneRepairAgrees(g: Setting, repair: Repair)
    ensures RepairsAgree(g, {repair})
  {
  }
}
