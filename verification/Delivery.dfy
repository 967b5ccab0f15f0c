/** What a client sees, in terms of unbounded publish positions: event number p of the session has
    id first + p mod 2^32. R, S and T are the numbers of events published when the server
    registered the client, when the client subscribed, and up to the client's read position. */
module Delivery {
  import opened SseTypes
  import opened Replay
  import opened EventIndexing
  import opened HttpServers
  import opened ClientStream

  // ----- Merging positions -------------------------------------------------------------------

  /** The positions a, a + 1, ..., b - 1. */
  function Range(a: nat, b: nat): seq<nat> {
    if b <= a then [] else seq(b - a, (i: nat) => a + i)
  }

  /** Whether position p has the id of one of the positions k..R. */
  ghost predicate Collides(first: Id, k: nat, R: nat, p: nat) {
    exists q: nat | k <= q < R :: IdAt(first, p) == IdAt(first, q)
  }

  /** The positions whose events a client that was replayed k..R drops as duplicates. */
  ghost function Collisions(first: Id, k: nat, R: nat): iset<nat> {
    iset p: nat | Collides(first, k, R, p)
  }

  /** The live positions S..T without the dropped ones. */
  ghost function Kept(dropped: iset<nat>, S: nat, T: nat): seq<nat> {
    if T <= S then []
    else Kept(dropped, S, T - 1) + if T - 1 in dropped then [] else [T - 1]
  }

  /** The positions a client sees: a replay of k..R, then what is new among S..T. */
  ghost function Merge(first: Id, k: nat, R: nat, S: nat, T: nat): seq<nat> {
    Range(k, R) + Kept(Collisions(first, k, R), S, T)
  }

  /** Strictly ascending positions within S..T, none dropped. */
  ghost predicate Survivors(kept: seq<nat>, dropped: iset<nat>, S: nat, T: nat) {
    && (forall i | 0 <= i < |kept| :: S <= kept[i] < T)
    && (forall i | 0 <= i < |kept| :: kept[i] !in dropped)
    && (forall i, j | 0 <= i < j < |kept| :: kept[i] < kept[j])
  }

  lemma {:induction false} KeptBounds(dropped: iset<nat>, S: nat, T: nat)
    ensures Survivors(Kept(dropped, S, T), dropped, S, T)
    decreases T
  {
    if S < T {
      KeptBounds(dropped, S, T - 1);
      var head, kept := Kept(dropped, S, T - 1), Kept(dropped, S, T);
      assert Survivors(head, dropped, S, T - 1);
      if T - 1 in dropped {
        assert kept == head;
      } else {
        assert kept == head + [T - 1];
      }
    }
  }

  lemma {:induction false} KeptContains(dropped: iset<nat>, S: nat, T: nat, p: nat)
    ensures p in Kept(dropped, S, T) <==> S <= p < T && p !in dropped
    decreases T
  {
    if S < T {
      KeptContains(dropped, S, T - 1, p);
    }
  }

  lemma {:induction false} RangeContains(a: nat, b: nat, p: nat)
    ensures p in Range(a, b) <==> a <= p < b
  {
    if a <= p < b {
      assert Range(a, b)[p - a] == p;
    }
  }

  lemma {:induction false} IdsDiffer(first: Id, p: nat, q: nat)
    requires p < q < p + ID_COUNT
    ensures IdAt(first, p) != IdAt(first, q)
  {
    IdAtCompose(first, p, q - p);
    ReduceOnce(IdAt(first, p) + q - p);
  }

  lemma {:induction false} IdsRepeat(first: Id, p: nat)
    ensures IdAt(first, p) == IdAt(first, p + ID_COUNT)
  {
    IdAtCompose(first, p, ID_COUNT);
    ReduceOnce(IdAt(first, p) + ID_COUNT);
  }

  lemma {:induction false} NoCollision(first: Id, k: nat, R: nat, p: nat)
    requires R <= p < k + ID_COUNT
    ensures !Collides(first, k, R, p)
  {
    forall q: nat | k <= q < R
      ensures IdAt(first, p) != IdAt(first, q)
    {
      IdsDiffer(first, q, p);
    }
  }

  lemma {:induction false} ReplayedCollides(first: Id, k: nat, R: nat, p: nat)
    requires k <= p < R
    ensures Collides(first, k, R, p)
  {
    var id := IdAt(first, p);
    assert exists q: nat | k <= q < R :: id == IdAt(first, q);
  }

  lemma {:induction false} KeptInOrder(first: Id, k: nat, R: nat, S: nat, T: nat)
    requires k <= S <= R && S <= T <= k + ID_COUNT
    ensures Kept(Collisions(first, k, R), S, T) == Range(R, T)
    decreases T
  {
    if S < T {
      KeptInOrder(first, k, R, S, T - 1);
      var q: nat := T - 1;
      if q < R {
        ReplayedCollides(first, k, R, q);
      } else {
        NoCollision(first, k, R, q);
        assert Range(R, T) == Range(R, q) + [q];
      }
      assert q in Collisions(first, k, R) <==> q < R;
    }
  }

  lemma {:induction false} RangesJoin(a: nat, b: nat, c: nat)
    requires a <= b
    ensures Range(a, b) + Range(b, c) == Range(a, if b <= c then c else b)
  {
  }

  /** A client that has read up to the registration point sees k, k + 1, ..., T - 1 in order,
      without gap or repeat, if and only if the event it named was published when it subscribed or
      is the next one (k <= S), nothing was published between registration and a later
      subscription (S <= R), and ids have not come round again (T <= k + 2^32). */
  lemma {:induction false} MergeExact(first: Id, k: nat, R: nat, S: nat, T: nat)
    requires k < R <= T && S <= T && R - k < ID_COUNT
    ensures Merge(first, k, R, S, T) == Range(k, T) <==> k <= S <= R && T <= k + ID_COUNT
  {
    if k <= S <= R && T <= k + ID_COUNT {
      KeptInOrder(first, k, R, S, T);
      RangesJoin(k, R, T);
    } else {
      var p: nat;
      if R < S {
        p := R;
      } else if S < k {
        p := k - 1;
        forall q: nat | k <= q < R
          ensures IdAt(first, p) != IdAt(first, q)
        {
          IdsDiffer(first, p, q);
        }
        assert !Collides(first, k, R, p);
      } else {
        p := k + ID_COUNT;
        IdsRepeat(first, k);
        assert Collides(first, k, R, p);
      }
      KeptContains(Collisions(first, k, R), S, T, p);
      RangeContains(k, R, p);
      RangeContains(k, T, p);
      assert p in Merge(first, k, R, S, T) <==> p !in Range(k, T);
    }
  }

  // ----- From messages to positions ----------------------------------------------------------

  ghost predicate InBounds(events: seq<ServerSentEvent>, positions: seq<nat>) {
    forall i | 0 <= i < |positions| :: positions[i] < |events|
  }

  ghost function Select(events: seq<ServerSentEvent>, positions: seq<nat>): seq<ServerSentEvent>
    requires InBounds(events, positions)
  {
    seq(|positions|, i requires 0 <= i < |positions| => events[positions[i]])
  }

  lemma {:induction false} PayloadsConcat(a: seq<ServerSentEvent>, b: seq<ServerSentEvent>)
    ensures Payloads(a + b) == Payloads(a) + Payloads(b)
  {
    if b == [] {
      assert a + b == a;
    } else {
      var before := b[..|b| - 1];
      PayloadsConcat(a, before);
      assert (a + b)[..|a + b| - 1] == a + before;
    }
  }

  /** The number of events with an id among the first n messages. */
  ghost function Count(history: seq<ServerSentEvent>, n: nat): (count: nat)
    requires n <= |history|
    ensures count <= |Payloads(history)|
  {
    PayloadsConcat(history[..n], history[n..]);
    assert history[..n] + history[n..] == history;
    |Payloads(history[..n])|
  }

  lemma {:induction false} CountSplits(history: seq<ServerSentEvent>, n: nat)
    requires n <= |history|
    ensures Payloads(history[..n]) == Payloads(history)[..Count(history, n)]
  {
    PayloadsConcat(history[..n], history[n..]);
    assert history[..n] + history[n..] == history;
  }

  lemma {:induction false} CountStep(history: seq<ServerSentEvent>, n: nat)
    requires n < |history|
    ensures var T := Count(history, n);
            if history[n].id.None? then Count(history, n + 1) == T
            else Count(history, n + 1) == T + 1 <= |Payloads(history)| && Payloads(history)[T] == history[n]
  {
    DecodeOne(history[..n], history[n]);
    assert history[..n] + [history[n]] == history[..n + 1];
    CountSplits(history, n + 1);
  }

  /** `ids` are the ids of the positions k..R. */
  ghost predicate IdsOfRange(ids: set<Id>, first: Id, k: nat, R: nat) {
    forall id: Id :: id in ids <==> exists q: nat | k <= q < R :: id == IdAt(first, q)
  }

  /** Event number p has the id of position p. */
  ghost predicate HasIds(first: Id, events: seq<ServerSentEvent>) {
    forall p | 0 <= p < |events| :: events[p].id == Some(IdAt(first, p))
  }

  /** The surviving live positions are those of published events. */
  lemma {:induction false} KeptInBounds(dropped: iset<nat>, S: nat, T: nat, events: seq<ServerSentEvent>)
    requires T <= |events|
    ensures InBounds(events, Kept(dropped, S, T))
  {
    KeptBounds(dropped, S, T);
  }

  lemma {:induction false} CountsAscend(history: seq<ServerSentEvent>, lo: nat, hi: nat)
    requires lo <= hi <= |history|
    ensures Count(history, lo) <= Count(history, hi)
  {
    PayloadsConcat(history[..lo], history[lo..hi]);
    assert history[..lo] + history[lo..hi] == history[..hi];
  }

  /** The live messages lo..hi without duplicates are the surviving positions. */
  ghost predicate KeepsPositions(history: seq<ServerSentEvent>, lo: nat, hi: nat, ids: set<Id>, dropped: iset<nat>)
    requires lo <= hi <= |history|
  {
    var kept := Kept(dropped, Count(history, lo), Count(history, hi));
    && InBounds(Payloads(history), kept)
    && Payloads(Dedup(history[lo..hi], ids)) == Select(Payloads(history), kept)
  }

  lemma {:induction false} DedupKeepsPositions(history: seq<ServerSentEvent>, lo: nat, hi: nat,
                                               ids: set<Id>, dropped: iset<nat>)
    requires DropsExactly(Payloads(history), ids, dropped) && lo <= hi <= |history|
    ensures KeepsPositions(history, lo, hi, ids, dropped)
  {
    DedupKeepsNothing(history, lo, ids, dropped);
    for n := lo to hi
      invariant KeepsPositions(history, lo, n, ids, dropped)
    {
      DedupKeepsOneMore(history, lo, n, ids, dropped);
    }
  }

  lemma {:induction false} DedupKeepsNothing(history: seq<ServerSentEvent>, n: nat, ids: set<Id>, dropped: iset<nat>)
    requires n <= |history|
    ensures KeepsPositions(history, n, n, ids, dropped)
  {
    assert history[n..n] == [];
    assert Kept(dropped, Count(history, n), Count(history, n)) == [];
  }

  lemma {:induction false} DedupKeepsOneMore(history: seq<ServerSentEvent>, lo: nat, n: nat,
                                             ids: set<Id>, dropped: iset<nat>)
    requires DropsExactly(Payloads(history), ids, dropped) && lo <= n < |history|
    requires KeepsPositions(history, lo, n, ids, dropped)
    ensures KeepsPositions(history, lo, n + 1, ids, dropped)
  {
    DedupSlice(history, lo, n, ids);
    SelectOneMore(history, lo, n, ids, dropped);
  }

  /** What message n adds to the live messages without duplicates. */
  ghost function Added(history: seq<ServerSentEvent>, n: nat, ids: set<Id>): seq<ServerSentEvent>
    requires n < |history|
  {
    if history[n].id.Some? && !IsDuplicate(history[n], ids) then [history[n]] else []
  }

  lemma {:induction false} DedupSlice(history: seq<ServerSentEvent>, lo: nat, n: nat, ids: set<Id>)
    requires lo <= n < |history|
    ensures Payloads(Dedup(history[lo..n + 1], ids)) == Payloads(Dedup(history[lo..n], ids)) + Added(history, n, ids)
  {
    assert history[lo..n + 1] == history[lo..n] + [history[n]];
    DedupOne(history[lo..n], history[n], ids);
  }

  lemma {:induction false} SelectOneMore(history: seq<ServerSentEvent>, lo: nat, n: nat,
                                         ids: set<Id>, dropped: iset<nat>)
    requires DropsExactly(Payloads(history), ids, dropped) && lo <= n < |history|
    ensures var kept := Kept(dropped, Count(history, lo), Count(history, n));
            var more := Kept(dropped, Count(history, lo), Count(history, n + 1));
            && InBounds(Payloads(history), kept) && InBounds(Payloads(history), more)
            && Select(Payloads(history), more) == Select(Payloads(history), kept) + Added(history, n, ids)
  {
    var events, S, T := Payloads(history), Count(history, lo), Count(history, n);
    CountStep(history, n);
    CountsAscend(history, lo, n);
    KeptInBounds(dropped, S, T, events);
    if history[n].id.Some? {
      assert IsDuplicate(events[T], ids) <==> T in dropped;
      SelectOne(dropped, S, T, events);
    } else {
      var all := Select(events, Kept(dropped, S, T));
      assert all + [] == all;
    }
  }

  lemma {:induction false} SelectOne(dropped: iset<nat>, S: nat, T: nat, events: seq<ServerSentEvent>)
    requires S <= T < |events|
    ensures InBounds(events, Kept(dropped, S, T)) && InBounds(events, Kept(dropped, S, T + 1))
    ensures Select(events, Kept(dropped, S, T + 1)) ==
            Select(events, Kept(dropped, S, T)) + if T in dropped then [] else [events[T]]
  {
    KeptInBounds(dropped, S, T, events);
    KeptInBounds(dropped, S, T + 1, events);
    var head := Kept(dropped, S, T);
    if T in dropped {
      assert Kept(dropped, S, T + 1) == head;
    } else {
      assert Kept(dropped, S, T + 1) == head + [T];
    }
  }

  lemma {:induction false} DedupOne(messages: seq<ServerSentEvent>, last: ServerSentEvent, ids: set<Id>)
    ensures Payloads(Dedup(messages + [last], ids)) ==
            Payloads(Dedup(messages, ids)) +
            if last.id.Some? && !IsDuplicate(last, ids) then [last] else []
  {
    assert (messages + [last])[..|messages|] == messages;
    var head := Dedup(messages, ids);
    if IsDuplicate(last, ids) {
      assert Dedup(messages + [last], ids) == head;
    } else {
      assert Dedup(messages + [last], ids) == head + [last];
      DecodeOne(head, last);
    }
  }

  /** The events whose ids are in `ids` are those at the dropped positions. */
  ghost predicate DropsExactly(events: seq<ServerSentEvent>, ids: set<Id>, dropped: iset<nat>) {
    forall p: nat | p < |events| :: IsDuplicate(events[p], ids) <==> p in dropped
  }

  lemma {:induction false} CollisionIsDuplicate(first: Id, events: seq<ServerSentEvent>, ids: set<Id>, k: nat, R: nat)
    requires HasIds(first, events) && IdsOfRange(ids, first, k, R)
    ensures DropsExactly(events, ids, Collisions(first, k, R))
  {
    forall p: nat | p < |events|
      ensures IsDuplicate(events[p], ids) <==> Collides(first, k, R, p)
    {
      assert events[p].id == Some(IdAt(first, p));
    }
  }

  lemma {:induction false} SelectRange(events: seq<ServerSentEvent>, a: nat, b: nat)
    requires a <= b <= |events|
    ensures Select(events, Range(a, b)) == events[a..b]
  {
  }

  lemma {:induction false} SuffixIds(first: Id, events: seq<ServerSentEvent>, k: nat)
    requires HasIds(first, events) && k <= |events|
    ensures IdsOfRange(IdSet(events[k..]), first, k, |events|)
  {
    var ids := IdSet(events[k..]);
    forall id: Id
      ensures id in ids <==> exists q: nat | k <= q < |events| :: id == IdAt(first, q)
    {
      if q: nat :| k <= q < |events| && id == IdAt(first, q) {
        assert events[k..][q - k] == events[q];
        assert events[q] in events[k..];
      }
    }
  }

  /** A client that named one of the positions oldest..total is replayed from there. */
  ghost predicate StartsWhereNamed(c: Config, oldest: int, total: nat, k: nat) {
    forall p: nat | oldest <= p < total && c.start == Some(IdAt(c.first, p)) :: k == p
  }

  /** The server, whose oldest buffered event is at position `oldest`, takes the id the client named for that of
      position p, which may be evicted or not published yet. */
  predicate TakenFor(c: Config, oldest: nat, p: int) {
    var earliest := oldest - Lookback(IdAt(c.first, oldest), c.capacity);
    earliest <= p < earliest + ID_COUNT && c.start.Some? && (c.first + p) % ID_COUNT == c.start.value
  }

  /** Where the replay starts, for every client: at the end if it names no start or nothing is buffered;
      otherwise at the position its id is taken for, or as near to it as the buffer reaches. */
  ghost predicate ReplaysFrom(c: Config, oldest: nat, total: nat, k: nat) {
    && (c.start.None? || oldest == total ==> k == total)
    && (oldest < total ==>
          forall p: int | TakenFor(c, oldest, p) :: k == if p < oldest then oldest else if p > total then total else p)
  }

  /** The initial events of any subscriber are the newest events from some position k on; k is the
      position the client named if that event is still buffered, and known in all other cases too. */
  lemma {:induction false} InitialPositions(c: Config, history: seq<ServerSentEvent>) returns (k: nat)
    requires c.Valid() && WellNumbered(c.first, history)
    ensures k <= |Payloads(history)| <= k + c.capacity
    ensures Payloads(InitialAfter(c, history)) == Payloads(history)[k..]
    ensures var oldest := |Payloads(history)| - |Wheel(Tagged(history), c.capacity)|;
            && StartsWhereNamed(c, oldest, |Payloads(history)|, k)
            && oldest >= 0 && ReplaysFrom(c, oldest, |Payloads(history)|, k)
  {
    var buffer := Wheel(Tagged(history), c.capacity);
    InitialPayloads(c, history);
    InitialSuffix(c, history);
    InitialNamed(c, history);
    InitialTaken(c, history);
    k := |Payloads(history)| - |Replayed(buffer, c.capacity, c.start)|;
  }

  lemma {:induction false} InitialPayloads(c: Config, history: seq<ServerSentEvent>)
    requires WellNumbered(c.first, history)
    ensures var buffer := Wheel(Tagged(history), c.capacity);
            && Numbered(buffer)
            && Payloads(InitialAfter(c, history)) == EventsOf(Replayed(buffer, c.capacity, c.start))
  {
    var buffer := Wheel(Tagged(history), c.capacity);
    assert Numbered(buffer) by { BufferIsNewestPayloads(c.first, history, c.capacity); }
    assert LatestVersion(history).None? ==> buffer == [] by { TaggedArePayloads(c.first, history); }
    InitialEventsAreFramed(buffer, c.capacity, LatestVersion(history), c.start, c.legacy);
  }

  lemma {:induction false} ReplayedSuffix(payloads: seq<ServerSentEvent>, buffer: seq<Entry>, capacity: Id, start: Option<Id>)
    requires |buffer| <= |payloads| && Numbered(buffer)
    requires forall j | 0 <= j < |buffer| :: buffer[j].event == payloads[|payloads| - |buffer| + j]
    ensures |Replayed(buffer, capacity, start)| <= |buffer|
    ensures EventsOf(Replayed(buffer, capacity, start)) == payloads[|payloads| - |Replayed(buffer, capacity, start)|..]
  {
    var skipped := ReplayedIsSuffix(buffer, capacity, start);
    EventsOfSuffix(payloads, buffer, skipped);
  }

  lemma {:induction false} EventsOfSuffix(payloads: seq<ServerSentEvent>, buffer: seq<Entry>, skipped: nat)
    requires skipped <= |buffer| <= |payloads|
    requires forall j | 0 <= j < |buffer| :: buffer[j].event == payloads[|payloads| - |buffer| + j]
    ensures EventsOf(buffer[skipped..]) == payloads[|payloads| - |buffer| + skipped..]
  {
  }

  lemma {:induction false} NamedPosition(c: Config, oldest: nat, buffer: seq<Entry>)
    requires c.Valid() && Numbered(buffer) && |buffer| <= c.capacity
    requires EntryIds(buffer) == ConsecutiveIds(IdAt(c.first, oldest), |buffer|)
    ensures StartsWhereNamed(c, oldest, oldest + |buffer|, oldest + |buffer| - |Replayed(buffer, c.capacity, c.start)|)
  {
    forall p: nat | oldest <= p < oldest + |buffer| && c.start == Some(IdAt(c.first, p))
      ensures |Replayed(buffer, c.capacity, c.start)| == oldest + |buffer| - p
    {
      IdAtCompose(c.first, oldest, p - oldest);
      BufferedStartReplaysSuffix(IdAt(c.first, oldest), |buffer|, c.capacity, p - oldest);
    }
  }

  lemma {:induction false} InitialSuffix(c: Config, history: seq<ServerSentEvent>)
    requires WellNumbered(c.first, history) && Numbered(Wheel(Tagged(history), c.capacity))
    ensures var payloads, buffer := Payloads(history), Wheel(Tagged(history), c.capacity);
            var replayed := Replayed(buffer, c.capacity, c.start);
            && |replayed| <= |buffer| <= |payloads| && |buffer| <= c.capacity
            && EventsOf(replayed) == payloads[|payloads| - |replayed|..]
  {
    BufferIsNewestPayloads(c.first, history, c.capacity);
    ReplayedSuffix(Payloads(history), Wheel(Tagged(history), c.capacity), c.capacity, c.start);
  }

  lemma {:induction false} InitialNamed(c: Config, history: seq<ServerSentEvent>)
    requires c.Valid() && WellNumbered(c.first, history) && Numbered(Wheel(Tagged(history), c.capacity))
    ensures var payloads, buffer := Payloads(history), Wheel(Tagged(history), c.capacity);
            var replayed := Replayed(buffer, c.capacity, c.start);
            |replayed| <= |payloads| && StartsWhereNamed(c, |payloads| - |buffer|, |payloads|, |payloads| - |replayed|)
  {
    BufferIsNewestPayloads(c.first, history, c.capacity);
    var buffer := Wheel(Tagged(history), c.capacity);
    NamedPosition(c, |Payloads(history)| - |buffer|, buffer);
  }

  /** The id of position p, seen from position `oldest`. */
  lemma {:induction false} IdFrom(first: Id, oldest: nat, p: int)
    ensures (IdAt(first, oldest) + (p - oldest)) % ID_COUNT == (first + p) % ID_COUNT
  {
    var q := (first + oldest) / ID_COUNT;
    assert first + oldest == q * ID_COUNT + IdAt(first, oldest);
    assert first + p == q * ID_COUNT + (IdAt(first, oldest) + (p - oldest));
    ModShift(IdAt(first, oldest) + (p - oldest), q);
  }

  lemma {:induction false} ModShift(x: int, q: int)
    ensures (q * ID_COUNT + x) % ID_COUNT == x % ID_COUNT
  {
    var d, m := x / ID_COUNT, x % ID_COUNT;
    assert q * ID_COUNT + x == (q + d) * ID_COUNT + m;
  }

  /** Every id a client can name is taken for some position. */
  lemma {:induction false} AlwaysTaken(c: Config, oldest: nat) returns (p: int)
    requires c.start.Some?
    ensures TakenFor(c, oldest, p)
  {
    var earliest := oldest - Lookback(IdAt(c.first, oldest), c.capacity);
    var x := c.start.value - c.first - earliest;
    p := earliest + x % ID_COUNT;
    assert c.first + p == c.start.value - (x / ID_COUNT) * ID_COUNT;
    ModShift(c.start.value, -(x / ID_COUNT));
  }

  lemma {:induction false} TakenPosition(c: Config, oldest: nat, buffer: seq<Entry>, p: int)
    requires c.Valid() && Numbered(buffer) && 1 <= |buffer| <= c.capacity && TakenFor(c, oldest, p)
    requires EntryIds(buffer) == ConsecutiveIds(IdAt(c.first, oldest), |buffer|)
    ensures var total := oldest + |buffer|;
            |Replayed(buffer, c.capacity, c.start)| ==
            total - if p < oldest then oldest else if p > total then total else p
  {
    IdFrom(c.first, oldest, p);
    ReplayFollowsPositions(IdAt(c.first, oldest), |buffer|, c.capacity, c.start.value, p - oldest);
  }

  lemma {:induction false} BufferTaken(c: Config, oldest: nat, buffer: seq<Entry>)
    requires c.Valid() && Numbered(buffer) && |buffer| <= c.capacity
    requires EntryIds(buffer) == ConsecutiveIds(IdAt(c.first, oldest), |buffer|)
    ensures var total, replayed := oldest + |buffer|, Replayed(buffer, c.capacity, c.start);
            |replayed| <= |buffer| && ReplaysFrom(c, oldest, total, total - |replayed|)
  {
    var skipped := ReplayedIsSuffix(buffer, c.capacity, c.start);
    if buffer != [] {
      forall p: int | TakenFor(c, oldest, p)
        ensures var total := oldest + |buffer|;
                |Replayed(buffer, c.capacity, c.start)| ==
                total - if p < oldest then oldest else if p > total then total else p
      {
        TakenPosition(c, oldest, buffer, p);
      }
    }
  }

  lemma {:induction false} InitialTaken(c: Config, history: seq<ServerSentEvent>)
    requires c.Valid() && WellNumbered(c.first, history) && Numbered(Wheel(Tagged(history), c.capacity))
    ensures var payloads, buffer := Payloads(history), Wheel(Tagged(history), c.capacity);
            var replayed := Replayed(buffer, c.capacity, c.start);
            |replayed| <= |buffer| <= |payloads| &&
            ReplaysFrom(c, |payloads| - |buffer|, |payloads|, |payloads| - |replayed|)
  {
    BufferIsNewestPayloads(c.first, history, c.capacity);
    var payloads, buffer := Payloads(history), Wheel(Tagged(history), c.capacity);
    BufferTaken(c, |payloads| - |buffer|, buffer);
  }

  lemma {:induction false} PayloadIdSet(stream: seq<ServerSentEvent>)
    ensures IdSet(Payloads(stream)) == IdSet(stream)
  {
    if stream != [] {
      var before, last := stream[..|stream| - 1], stream[|stream| - 1];
      PayloadIdSet(before);
      assert stream == before + [last];
      assert IdSet(stream) == IdSet(before) + IdSet([last]);
      assert last.id.Some? ==> IdSet(Payloads(before) + [last]) == IdSet(Payloads(before)) + IdSet([last]);
    }
  }

  // ----- Main results ------------------------------------------------------------------------

  /** The client named event p, and p was still in the buffer when the server registered it. */
  ghost predicate StillBuffered(c: Config, s: State, p: nat)
    requires s.registeredAt.Some? && s.registeredAt.value <= |s.history|
  {
    var past := s.history[..s.registeredAt.value];
    && |Payloads(past)| - |Wheel(Tagged(past), c.capacity)| <= p < |Payloads(past)|
    && c.start == Some(IdAt(c.first, p))
  }

  /** The client is attached to both channels and has read all its initial events. */
  ghost predicate Live(s: State) {
    && s.registeredAt.Some? && s.registeredAt.value <= |s.history|
    && s.subscribedAt.Some? && s.subscribedAt.value <= s.cursor <= |s.history|
    && s.initial == []
  }

  ghost function R(s: State): nat
    requires Live(s)
  {
    Count(s.history, s.registeredAt.value)
  }

  ghost function S(s: State): nat
    requires Live(s)
  {
    Count(s.history, s.subscribedAt.value)
  }

  ghost function T(s: State): nat
    requires Live(s)
  {
    Count(s.history, s.cursor)
  }

  /** The positions of the events the client has seen, when its replay began at position k. */
  ghost function Seen(c: Config, s: State, k: nat): seq<nat>
    requires Live(s)
  {
    Merge(c.first, k, R(s), S(s), T(s))
  }

  /** In every interleaving a live client has seen the merge of a replay k..R with the live
      positions S..T. */
  lemma {:induction false} DeliveredIsMerge(c: Config, s: State) returns (k: nat)
    requires c.Valid() && ServerInv(c, s) && ClientInv(c, s) && Live(s)
    ensures k <= R(s) <= k + c.capacity && S(s) <= T(s)
    ensures InBounds(Payloads(s.history), Seen(c, s, k))
    ensures Payloads(s.delivered) == Select(Payloads(s.history), Seen(c, s, k))
    ensures forall p: nat | StillBuffered(c, s, p) :: k == p
    ensures |Payloads(InitialAfter(c, s.history[..s.registeredAt.value]))| == R(s) - k
  {
    var past, events := s.history[..s.registeredAt.value], Payloads(s.history);
    WellNumberedPrefix(c.first, s.history, s.registeredAt.value);
    k := InitialPositions(c, past);
    assert HasIds(c.first, events) by { PayloadIds(c.first, s.history); }
    CountSplits(s.history, s.registeredAt.value);
    CountsAscend(s.history, s.subscribedAt.value, s.cursor);
    MergeSelected(c, s, InitialAfter(c, past), k);
  }

  lemma {:induction false} MergeSelected(c: Config, s: State, all: seq<ServerSentEvent>, k: nat)
    requires Live(s) && DeliveredFrom(s, all) && HasIds(c.first, Payloads(s.history))
    requires k <= R(s) && Payloads(all) == Payloads(s.history)[k..R(s)]
    ensures InBounds(Payloads(s.history), Seen(c, s, k))
    ensures Payloads(s.delivered) == Select(Payloads(s.history), Seen(c, s, k))
  {
    var events := Payloads(s.history);
    var live := Dedup(s.history[s.subscribedAt.value..s.cursor], IdSet(all));
    ReplayDropsCollisions(c.first, events, all, k, R(s));
    DedupKeepsPositions(s.history, s.subscribedAt.value, s.cursor, IdSet(all), Collisions(c.first, k, R(s)));
    SelectMerged(events, all, live, k, R(s), Kept(Collisions(c.first, k, R(s)), S(s), T(s)));
  }

  lemma {:induction false} SelectMerged(events: seq<ServerSentEvent>, all: seq<ServerSentEvent>, live: seq<ServerSentEvent>,
                                        k: nat, R: nat, kept: seq<nat>)
    requires k <= R <= |events| && Payloads(all) == events[k..R]
    requires InBounds(events, kept) && Payloads(live) == Select(events, kept)
    ensures InBounds(events, Range(k, R) + kept)
    ensures Payloads(all + live) == Select(events, Range(k, R) + kept)
  {
    PayloadsConcat(all, live);
    SelectRange(events, k, R);
  }

  /** A client that was replayed k..R drops the live events whose ids collide with those. */
  lemma {:induction false} ReplayDropsCollisions(first: Id, events: seq<ServerSentEvent>, all: seq<ServerSentEvent>, k: nat, R: nat)
    requires HasIds(first, events) && k <= R <= |events| && Payloads(all) == events[k..R]
    ensures DropsExactly(events, IdSet(all), Collisions(first, k, R))
  {
    assert events[..R][k..] == events[k..R];
    SuffixIds(first, events[..R], k);
    PayloadIdSet(all);
    CollisionIsDuplicate(first, events, IdSet(all), k, R);
  }

  lemma {:induction false} WellNumberedPrefix(first: Id, history: seq<ServerSentEvent>, n: nat)
    requires WellNumbered(first, history) && n <= |history|
    ensures WellNumbered(first, history[..n])
  {
    if n < |history| {
      WellNumberedPrefix(first, history[..|history| - 1], n);
      assert history[..|history| - 1][..n] == history[..n];
    } else {
      assert history[..n] == history;
    }
  }

  /** A client that names a buffered event k sees exactly that event and its successors, in order,
      once each, if k <= S <= R and T <= k + 2^32; and only then, as soon as it has read past R. */
  lemma {:induction false} ExactlyOnceMerge(c: Config, actions: seq<Action>, k: nat)
    requires c.Valid()
    requires Live(Exec(c, actions)) && StillBuffered(c, Exec(c, actions), k)
    ensures var s := Exec(c, actions);
            var events, seen := Payloads(s.history), Payloads(s.delivered);
            && InBounds(events, Seen(c, s, k))
            && seen == Select(events, Seen(c, s, k))
            && (k <= S(s) <= R(s) && T(s) <= k + ID_COUNT ==>
                  seen == if T(s) < R(s) then events[k..R(s)] else events[k..T(s)])
            && (R(s) <= T(s) ==>
                  (Seen(c, s, k) == Range(k, T(s)) <==> k <= S(s) <= R(s) && T(s) <= k + ID_COUNT))
  {
    Reachable(c, actions);
    var s := Exec(c, actions);
    var position := DeliveredIsMerge(c, s);
    var events := Payloads(s.history);
    CountSplits(s.history, s.registeredAt.value);
    CountSplits(s.history, s.cursor);
    if k <= S(s) <= R(s) && T(s) <= k + ID_COUNT {
      KeptInOrder(c.first, k, R(s), S(s), T(s));
      RangesJoin(k, R(s), T(s));
      SelectRange(events, k, if T(s) < R(s) then R(s) else T(s));
    }
    if R(s) <= T(s) {
      MergeExact(c.first, k, R(s), S(s), T(s));
    }
  }

  /** No id is delivered twice to one client, in any interleaving and for any requested start, as
      long as at most 2^32 events were read since the client subscribed. */
  lemma {:induction false} NoDuplicateDelivery(c: Config, actions: seq<Action>)
    requires c.Valid()
    requires var s := Exec(c, actions); Live(s) ==> T(s) <= S(s) + ID_COUNT
    ensures DistinctIds(Payloads(Exec(c, actions).delivered))
  {
    Reachable(c, actions);
    var s := Exec(c, actions);
    if Live(s) {
      var k := DuplicatesExactly(c, actions);
    } else if s.registeredAt.Some? && s.subscribedAt.Some? {
      var past := s.history[..s.registeredAt.value];
      WellNumberedPrefix(c.first, s.history, s.registeredAt.value);
      var k := InitialPositions(c, past);
      PayloadIds(c.first, past);
      PayloadsConcat(s.delivered, s.initial);
      InitialDistinct(c.first, Payloads(past), k, Payloads(s.delivered));
    }
  }

  /** Some event that was not dropped and one published 2^32 events later were both read live. */
  ghost predicate ReadTwice(dropped: iset<nat>, S: nat, T: nat) {
    exists p: nat | S <= p :: p + ID_COUNT < T && p !in dropped
  }

  lemma {:induction false} SameIdSameFate(first: Id, k: nat, R: nat, p: nat)
    requires p !in Collisions(first, k, R)
    ensures p + ID_COUNT !in Collisions(first, k, R)
  {
    IdsRepeat(first, p);
  }

  ghost predicate DistinctAt(first: Id, positions: seq<nat>) {
    forall i, j | 0 <= i < j < |positions| :: IdAt(first, positions[i]) != IdAt(first, positions[j])
  }

  lemma {:induction false} BothMerged(replay: seq<nat>, live: seq<nat>, p: nat, q: nat) returns (i: nat, j: nat)
    requires p in live && q in live && p < q
    requires forall a, b | 0 <= a < b < |live| :: live[a] < live[b]
    ensures i < j < |replay + live| && (replay + live)[i] == p && (replay + live)[j] == q
  {
    var a: nat :| a < |live| && live[a] == p;
    var b: nat :| b < |live| && live[b] == q;
    i, j := |replay| + a, |replay| + b;
  }

  lemma {:induction false} ReadTwiceRepeats(first: Id, k: nat, R: nat, S: nat, T: nat)
    requires ReadTwice(Collisions(first, k, R), S, T)
    ensures !DistinctAt(first, Merge(first, k, R, S, T))
  {
    var dropped := Collisions(first, k, R);
    var p: nat :| S <= p && p + ID_COUNT < T && p !in dropped;
    var q: nat := p + ID_COUNT;
    SameIdSameFate(first, k, R, p);
    KeptContains(dropped, S, T, p);
    KeptContains(dropped, S, T, q);
    KeptBounds(dropped, S, T);
    var i, j := BothMerged(Range(k, R), Kept(dropped, S, T), p, q);
    IdsRepeat(first, p);
    PairRepeats(first, Merge(first, k, R, S, T), i, j);
  }

  lemma {:induction false} PairRepeats(first: Id, positions: seq<nat>, i: nat, j: nat)
    requires i < j < |positions| && IdAt(first, positions[i]) == IdAt(first, positions[j])
    ensures !DistinctAt(first, positions)
  {
  }

  lemma {:induction false} ReadOnceDistinct(first: Id, k: nat, R: nat, S: nat, T: nat)
    requires k <= R < k + ID_COUNT && !ReadTwice(Collisions(first, k, R), S, T)
    ensures DistinctAt(first, Merge(first, k, R, S, T))
  {
    var dropped := Collisions(first, k, R);
    var m, replay, live := Merge(first, k, R, S, T), Range(k, R), Kept(dropped, S, T);
    KeptBounds(dropped, S, T);
    forall i, j | 0 <= i < j < |m|
      ensures IdAt(first, m[i]) != IdAt(first, m[j])
    {
      if j < |replay| {
        IdsDiffer(first, m[i], m[j]);
      } else if i < |replay| {
        assert k <= m[i] < R && m[j] == live[j - |replay|];
        assert !Collides(first, k, R, m[j]);
      } else {
        var p, q := live[i - |replay|], live[j - |replay|];
        assert m[i] == p && m[j] == q && S <= p < q < T && p !in dropped;
        IdsDiffer(first, p, q);
      }
    }
  }

  /** Exactly when a live client is delivered an id twice, in any interleaving and for any requested start:
      if its replay began at position k, just if some event it read live and did not drop was followed by
      another 2^32 events it read live. */
  lemma {:induction false} DuplicatesExactly(c: Config, actions: seq<Action>) returns (k: nat)
    requires c.Valid() && Live(Exec(c, actions))
    ensures var s := Exec(c, actions);
            && k <= R(s) && |Payloads(InitialAfter(c, s.history[..s.registeredAt.value]))| == R(s) - k
            && (DistinctIds(Payloads(s.delivered)) <==> !ReadTwice(Collisions(c.first, k, R(s)), S(s), T(s)))
  {
    Reachable(c, actions);
    var s := Exec(c, actions);
    k := DeliveredIsMerge(c, s);
    PayloadIds(c.first, s.history);
    var events, seen := Payloads(s.history), Seen(c, s, k);
    assert HasIds(c.first, events);
    DistinctSelect(c.first, events, seen);
    if ReadTwice(Collisions(c.first, k, R(s)), S(s), T(s)) {
      ReadTwiceRepeats(c.first, k, R(s), S(s), T(s));
    } else {
      ReadOnceDistinct(c.first, k, R(s), S(s), T(s));
    }
  }

  lemma {:induction false} DistinctSelect(first: Id, events: seq<ServerSentEvent>, positions: seq<nat>)
    requires InBounds(events, positions) && HasIds(first, events)
    ensures DistinctIds(Select(events, positions)) <==> DistinctAt(first, positions)
  {
    var selected := Select(events, positions);
    assert forall i | 0 <= i < |positions| :: selected[i].id == Some(IdAt(first, positions[i]));
    if DistinctIds(selected) {
      forall i, j | 0 <= i < j < |positions|
        ensures IdAt(first, positions[i]) != IdAt(first, positions[j])
      {
        assert selected[i].id != selected[j].id;
      }
    }
  }

  ghost predicate DistinctIds(events: seq<ServerSentEvent>) {
    forall i, j | 0 <= i < j < |events| :: events[i].id != events[j].id
  }

  lemma {:induction false} InitialDistinct(first: Id, events: seq<ServerSentEvent>, k: nat, seen: seq<ServerSentEvent>)
    requires HasIds(first, events) && k <= |events| < k + ID_COUNT && seen <= events[k..]
    ensures DistinctIds(seen)
  {
    assert forall i | 0 <= i < |seen| :: seen[i] == events[k + i];
    forall i, j | 0 <= i < j < |seen|
      ensures seen[i].id != seen[j].id
    {
      IdsDiffer(first, k + i, k + j);
    }
  }

  // ----- A client that misses an event -------------------------------------------------------

  function EventAt(c: Config, p: nat, data: SseData): ServerSentEvent {
    ServerSentEvent(Some(IdAt(c.first, p)), Some(data), false, None)
  }

  function Announced(version: ProtocolVersion): ServerSentEvent {
    ServerSentEvent(None, Some(ApiVersion(version)), false, None)
  }

  /** The server registers the client, publishes an event, and only then the client subscribes. */
  function LateSubscription(version: ProtocolVersion, d0: SseData, d1: SseData, d2: SseData): seq<Action> {
    [Publish(ApiVersion(version), None), Publish(d0, None), SendInfo, Register, Publish(d1, None), Subscribe,
     DeliverInitial, DeliverInitial, Publish(d2, None), DeliverLive]
  }

  /** A server that has published a version and one event, and was told about a client that names it. */
  lemma {:induction false} Prepared(c: Config, version: ProtocolVersion, d0: SseData) returns (actions: seq<Action>)
    requires c.Valid() && !d0.ApiVersion?
    ensures actions == [Publish(ApiVersion(version), None), Publish(d0, None), SendInfo]
    ensures Exec(c, actions) == Init(c).(index := WrappingAdd(c.first, 1), latest := Some(version), infoSent := true,
                                         buffer := [Entry(version, EventAt(c, 0, d0))],
                                         history := [Announced(version), EventAt(c, 0, d0)])
  {
    actions := Then(c, [], Publish(ApiVersion(version), None));
    actions := Then(c, actions, Publish(d0, None));
    actions := Then(c, actions, SendInfo);
    assert IdAt(c.first, 0) == c.first;
  }

  lemma {:induction false} OneEntryReplayed(c: Config, entry: Entry, latest: Option<ProtocolVersion>)
    requires Numbered([entry]) && c.start == entry.event.id && !c.legacy
    ensures InitialEvents([entry], c.capacity, latest, c.start, c.legacy) == [VersionEvent(entry.version), entry.event]
  {
    var buffer := [entry];
    assert buffer[0].event.id.Some?;
    assert ReplayIndex(EntryIds(buffer), c.capacity, c.start.value) == 0;
    assert Replayed(buffer, c.capacity, c.start) == buffer;
    assert buffer[..0] == [] && Framed([]) == [];
  }

  lemma {:induction false} RegistersOne(c: Config, s: State, entry: Entry)
    requires c.Valid() && c.start.Some? && !c.legacy && entry.event.id == c.start
    requires s.buffer == [entry] && Numbered(s.buffer) && s.infoSent && s.registeredAt.None?
    ensures Do(c, s, Register) ==
            s.(registeredAt := Some(|s.history|), initial := [VersionEvent(entry.version), entry.event])
  {
    OneEntryReplayed(c, entry, s.latest);
  }

  lemma {:induction false} Registered(c: Config, version: ProtocolVersion, d0: SseData) returns (actions: seq<Action>)
    requires c.Valid() && c.start == Some(c.first) && !c.legacy && !d0.ApiVersion?
    ensures actions == [Publish(ApiVersion(version), None), Publish(d0, None), SendInfo, Register]
    ensures var s := Exec(c, actions);
            && s.infoSent && s.registeredAt == Some(2) && s.subscribedAt.None? && s.index == WrappingAdd(c.first, 1)
            && s.history == [Announced(version), EventAt(c, 0, d0)]
            && s.initial == [VersionEvent(version), EventAt(c, 0, d0)] && s.delivered == [] && s.initialIds == {}
  {
    actions := Prepared(c, version, d0);
    assert EventAt(c, 0, d0).id == c.start by {
      assert IdAt(c.first, 0) == c.first;
    }
    RegistersOne(c, Exec(c, actions), Entry(version, EventAt(c, 0, d0)));
    actions := Then(c, actions, Register);
  }

  /** An event is published between registration and subscription. */
  lemma {:induction false} SubscribesAfter(c: Config, s: State, data: SseData)
    requires c.Valid() && Numbered(s.buffer) && s.infoSent && s.subscribedAt.None? && !data.ApiVersion?
    ensures var t := Do(c, Do(c, s, Publish(data, None)), Subscribe);
            && t.history == s.history + [ServerSentEvent(Some(s.index), Some(data), false, None)]
            && t.subscribedAt == Some(|t.history|) && t.cursor == |t.history| && t.index == WrappingAdd(s.index, 1)
            && t.registeredAt == s.registeredAt && t.initial == s.initial
            && t.delivered == s.delivered && t.initialIds == s.initialIds
  {
  }

  lemma {:induction false} ReadsTwo(c: Config, s: State, a: ServerSentEvent, b: ServerSentEvent)
    requires c.Valid() && Numbered(s.buffer) && s.subscribedAt.Some? && s.initial == [a, b]
    ensures Do(c, Do(c, s, DeliverInitial), DeliverInitial) ==
            s.(initial := [], delivered := s.delivered + [a] + [b], initialIds := s.initialIds + IdSet([a]) + IdSet([b]))
  {
    assert [a, b][1..] == [b] && [b][1..] == [];
  }

  lemma {:induction false} ReadsPublished(c: Config, s: State, data: SseData)
    requires c.Valid() && Numbered(s.buffer) && !data.ApiVersion?
    requires s.subscribedAt.Some? && s.registeredAt.Some? && s.initial == [] && s.cursor == |s.history|
    requires s.index !in s.initialIds
    ensures var event := ServerSentEvent(Some(s.index), Some(data), false, None);
            var t := Do(c, Do(c, s, Publish(data, None)), DeliverLive);
            && t.history == s.history + [event] && t.delivered == s.delivered + [event]
            && t.registeredAt == s.registeredAt && t.subscribedAt == s.subscribedAt
  {
  }

  lemma {:induction false} TwoMore(c: Config, actions: seq<Action>, a: Action, b: Action) returns (more: seq<Action>)
    requires c.Valid()
    ensures more == actions + [a, b] && Exec(c, more) == Do(c, Do(c, Exec(c, actions), a), b)
  {
    more := Then(c, actions, a);
    more := Then(c, more, b);
  }

  /** The client's view of a registered state in which it has not read anything. */
  ghost predicate Unread(s: State, c: Config, version: ProtocolVersion, d0: SseData) {
    && s.registeredAt == Some(2) && s.initial == [VersionEvent(version), EventAt(c, 0, d0)]
    && s.delivered == [] && s.initialIds == {}
  }

  lemma {:induction false} SubscribedLate(c: Config, version: ProtocolVersion, d0: SseData, d1: SseData) returns (actions: seq<Action>)
    requires c.Valid() && c.start == Some(c.first) && !c.legacy && !d0.ApiVersion? && !d1.ApiVersion?
    ensures actions == [Publish(ApiVersion(version), None), Publish(d0, None), SendInfo, Register, Publish(d1, None), Subscribe]
    ensures var s := Exec(c, actions);
            && Unread(s, c, version, d0) && s.subscribedAt == Some(3) && s.cursor == 3 && s.index == IdAt(c.first, 2)
            && s.history == [Announced(version), EventAt(c, 0, d0), EventAt(c, 1, d1)]
  {
    actions := Registered(c, version, d0);
    SubscribesAfter(c, Exec(c, actions), d1);
    IdAtCompose(c.first, 1, 1);
    actions := TwoMore(c, actions, Publish(d1, None), Subscribe);
  }

  lemma {:induction false} ReadLate(c: Config, s: State, version: ProtocolVersion, d0: SseData, d2: SseData)
    requires c.Valid() && Numbered(s.buffer) && !d2.ApiVersion? && Unread(s, c, version, d0)
    requires s.subscribedAt.Some? && s.cursor == |s.history| && s.index == IdAt(c.first, 2)
    ensures var t := Do(c, Do(c, Do(c, Do(c, s, DeliverInitial), DeliverInitial), Publish(d2, None)), DeliverLive);
            && t.history == s.history + [EventAt(c, 2, d2)]
            && t.registeredAt == s.registeredAt && t.subscribedAt == s.subscribedAt
            && t.delivered == [VersionEvent(version), EventAt(c, 0, d0), EventAt(c, 2, d2)]
  {
    var e0 := EventAt(c, 0, d0);
    ReadsTwo(c, s, VersionEvent(version), e0);
    assert IdSet([VersionEvent(version)]) == {} && IdSet([e0]) == {IdAt(c.first, 0)};
    IdsDiffer(c.first, 0, 2);
    ReadsPublished(c, Do(c, Do(c, s, DeliverInitial), DeliverInitial), d2);
  }

  /** A run in which a client misses an event although it named one that was still buffered: it was
      registered before that event was published, and subscribed after. */
  lemma {:induction false} LateSubscriptionMissesEvent(c: Config, version: ProtocolVersion, d0: SseData, d1: SseData, d2: SseData)
    requires c.Valid() && c.start == Some(c.first) && !c.legacy
    requires !d0.ApiVersion? && !d1.ApiVersion? && !d2.ApiVersion?
    ensures var s := Exec(c, LateSubscription(version, d0, d1, d2));
            && s.registeredAt == Some(2) && s.subscribedAt == Some(3)
            && s.history == [Announced(version), EventAt(c, 0, d0), EventAt(c, 1, d1), EventAt(c, 2, d2)]
            && s.delivered == [VersionEvent(version), EventAt(c, 0, d0), EventAt(c, 2, d2)]
  {
    var actions := SubscribedLate(c, version, d0, d1);
    ReadLate(c, Exec(c, actions), version, d0, d2);
    actions := TwoMore(c, actions, DeliverInitial, DeliverInitial);
    actions := TwoMore(c, actions, Publish(d2, None), DeliverLive);
    assert actions == LateSubscription(version, d0, d1, d2);
  }

  /** In terms of published events: the second of three never reaches the client. */
  lemma {:induction false} LateSubscriptionSkips(c: Config, version: ProtocolVersion, d0: SseData, d1: SseData, d2: SseData)
    requires c.Valid() && c.start == Some(c.first) && !c.legacy
    requires !d0.ApiVersion? && !d1.ApiVersion? && !d2.ApiVersion?
    ensures var s := Exec(c, LateSubscription(version, d0, d1, d2));
            && Payloads(s.history) == [EventAt(c, 0, d0), EventAt(c, 1, d1), EventAt(c, 2, d2)]
            && Payloads(s.delivered) == [EventAt(c, 0, d0), EventAt(c, 2, d2)]
  {
    var e0, e1, e2 := EventAt(c, 0, d0), EventAt(c, 1, d1), EventAt(c, 2, d2);
    LateSubscriptionMissesEvent(c, version, d0, d1, d2);
    PayloadsOfThree(VersionEvent(version), e0, e2);
    PayloadsOfThree(Announced(version), e0, e1);
    PayloadsOne([Announced(version), e0, e1], e2);
    assert [Announced(version), e0, e1] + [e2] == [Announced(version), e0, e1, e2];
  }

  lemma {:induction false} PayloadsOfThree(announcement: ServerSentEvent, first: ServerSentEvent, second: ServerSentEvent)
    requires announcement.id.None? && first.id.Some? && second.id.Some?
    ensures Payloads([announcement, first, second]) == [first, second]
  {
    PayloadsOne([], announcement);
    PayloadsOne([announcement], first);
    PayloadsOne([announcement, first], second);
    assert [] + [announcement] == [announcement] && [announcement] + [first] == [announcement, first];
    assert [announcement, first] + [second] == [announcement, first, second];
  }

  // ----- A client that is left with an old version -------------------------------------------

  /** A version is announced after the event the client resumes from and before it subscribes. */
  function HiddenVersion(older: ProtocolVersion, newer: ProtocolVersion, d0: SseData, d1: SseData): seq<Action> {
    [Publish(ApiVersion(older), None), Publish(d0, None), Publish(ApiVersion(newer), None), SendInfo, Register, Subscribe,
     DeliverInitial, DeliverInitial, Publish(d1, None), DeliverLive]
  }

  lemma {:induction false} Superseded(c: Config, older: ProtocolVersion, newer: ProtocolVersion, d0: SseData) returns (actions: seq<Action>)
    requires c.Valid() && !d0.ApiVersion?
    ensures actions == [Publish(ApiVersion(older), None), Publish(d0, None), Publish(ApiVersion(newer), None), SendInfo]
    ensures Exec(c, actions) == Init(c).(index := WrappingAdd(c.first, 1), latest := Some(newer), infoSent := true,
                                         buffer := [Entry(older, EventAt(c, 0, d0))],
                                         history := [Announced(older), EventAt(c, 0, d0), Announced(newer)])
  {
    actions := Then(c, [], Publish(ApiVersion(older), None));
    actions := Then(c, actions, Publish(d0, None));
    assert IdAt(c.first, 0) == c.first;
    actions := TwoMore(c, actions, Publish(ApiVersion(newer), None), SendInfo);
  }

  lemma {:induction false} AttachedAfter(c: Config, older: ProtocolVersion, newer: ProtocolVersion, d0: SseData) returns (actions: seq<Action>)
    requires c.Valid() && c.start == Some(c.first) && !c.legacy && !d0.ApiVersion?
    ensures actions == [Publish(ApiVersion(older), None), Publish(d0, None), Publish(ApiVersion(newer), None), SendInfo,
                        Register, Subscribe]
    ensures var s := Exec(c, actions);
            && s.registeredAt == Some(3) && s.subscribedAt == Some(3) && s.cursor == 3 && s.index == IdAt(c.first, 1)
            && s.history == [Announced(older), EventAt(c, 0, d0), Announced(newer)]
            && s.initial == [VersionEvent(older), EventAt(c, 0, d0)] && s.delivered == [] && s.initialIds == {}
  {
    actions := Superseded(c, older, newer, d0);
    assert IdAt(c.first, 0) == c.first;
    OneEntryReplayed(c, Entry(older, EventAt(c, 0, d0)), Some(newer));
    actions := TwoMore(c, actions, Register, Subscribe);
  }

  lemma {:induction false} ReadHidden(c: Config, s: State, older: ProtocolVersion, d0: SseData, d1: SseData)
    requires c.Valid() && Numbered(s.buffer) && !d1.ApiVersion?
    requires s.registeredAt.Some? && s.subscribedAt.Some? && s.cursor == |s.history| && s.index == IdAt(c.first, 1)
    requires s.initial == [VersionEvent(older), EventAt(c, 0, d0)] && s.delivered == [] && s.initialIds == {}
    ensures var t := Do(c, Do(c, Do(c, Do(c, s, DeliverInitial), DeliverInitial), Publish(d1, None)), DeliverLive);
            && t.history == s.history + [EventAt(c, 1, d1)]
            && t.delivered == [VersionEvent(older), EventAt(c, 0, d0), EventAt(c, 1, d1)]
  {
    var e0 := EventAt(c, 0, d0);
    ReadsTwo(c, s, VersionEvent(older), e0);
    assert IdSet([VersionEvent(older)]) == {} && IdSet([e0]) == {IdAt(c.first, 0)};
    IdsDiffer(c.first, 0, 1);
    ReadsPublished(c, Do(c, Do(c, s, DeliverInitial), DeliverInitial), d1);
  }

  /** A run in which a client reads an event behind an older version than it was published under. */
  lemma {:induction false} HiddenVersionMisattributes(c: Config, older: ProtocolVersion, newer: ProtocolVersion, d0: SseData, d1: SseData)
    requires c.Valid() && c.start == Some(c.first) && !c.legacy && !d0.ApiVersion? && !d1.ApiVersion?
    ensures var s := Exec(c, HiddenVersion(older, newer, d0, d1));
            && s.history == [Announced(older), EventAt(c, 0, d0), Announced(newer), EventAt(c, 1, d1)]
            && s.delivered == [VersionEvent(older), EventAt(c, 0, d0), EventAt(c, 1, d1)]
  {
    var actions := AttachedAfter(c, older, newer, d0);
    ReadHidden(c, Exec(c, actions), older, d0, d1);
    actions := TwoMore(c, actions, DeliverInitial, DeliverInitial);
    actions := TwoMore(c, actions, Publish(d1, None), DeliverLive);
    assert actions == HiddenVersion(older, newer, d0, d1);
  }
}
