/** The objects of one session end: stream-id allocation, receive credit, per-stream chunk queues and the calls on them. */
module MuxSession {
  import opened Bytes
  import opened MuxCodec
  import opened MuxQueue

  // ------------------------------------------------------------------
  // Stream ids
  // ------------------------------------------------------------------

  datatype IdState = IdState(last: u32, goAway: bool)

  /** Only true of 0 and 1: the counter has come round. */
  predicate Wrapped(sid: u32) { sid == sid % 2 }

  /** `wrapping_add(2)`. */
  function PlusTwo(last: u32): u32 { (last + 2) % 0x1_0000_0000 }

  lemma PlusTwoIs(last: u32)
    ensures PlusTwo(last) == if last < 0xffff_fffe then last + 2 else last - 0xffff_fffe
  {}

  /** The part of the allocation that runs under the lock. */
  function Bump(s: IdState): (IdState, Option<u32>) {
    var sid := PlusTwo(s.last);
    if Wrapped(sid) then (IdState(sid, true), None) else (IdState(sid, s.goAway), Some(sid))
  }

  function NextId(s: IdState): (IdState, Option<u32>) {
    if s.goAway then (s, None) else Bump(s)
  }

  function FirstIds(isClient: bool): IdState { IdState(if isClient then 1 else 0, false) }

  /** The answers to `calls` successive allocations. */
  function Allocate(s: IdState, calls: nat): seq<Option<u32>>
    decreases calls
  {
    if calls == 0 then [] else [NextId(s).1] + Allocate(NextId(s).0, calls - 1)
  }

  const MAX_STREAMS: nat := 0x7fff_ffff

  lemma {:induction false} AllocateFrom(start: nat, done: nat, goAway: bool, calls: nat, k: nat)
    requires start < 2 && k < calls
    requires if goAway then done >= MAX_STREAMS else done <= MAX_STREAMS
    ensures var s := IdState(if goAway then start else start + 2 * done, goAway);
            |Allocate(s, calls)| == calls
            && Allocate(s, calls)[k] == if done + k < MAX_STREAMS then Some(start + 2 * (done + k + 1)) else None
    decreases calls
  {
    var s := IdState(if goAway then start else start + 2 * done, goAway);
    var next := NextId(s).0;
    if calls > 1 {
      var k' := if k == 0 then 0 else k - 1;
      if goAway || done == MAX_STREAMS {
        assert next == IdState(start, true);
        AllocateFrom(start, MAX_STREAMS + 1, true, calls - 1, k');
        assert Allocate(s, calls) == [None] + Allocate(next, calls - 1);
      } else {
        assert next == IdState(start + 2 * (done + 1), false);
        AllocateFrom(start, done + 1, false, calls - 1, k');
        assert Allocate(s, calls) == [Some(start + 2 * (done + 1))] + Allocate(next, calls - 1);
      }
    } else {
      assert Allocate(next, 0) == [];
    }
  }

  /** The k-th allocation is the k-th id of the role's parity; exactly 2^31 - 1 succeed and then all are refused. */
  lemma IdsAreExact(isClient: bool, calls: nat, k: nat)
    requires k < calls
    ensures var ids := Allocate(FirstIds(isClient), calls);
            |ids| == calls
            && ids[k] == if k < MAX_STREAMS then Some((if isClient then 1 else 0) + 2 * (k + 1)) else None
  {
    AllocateFrom(if isClient then 1 else 0, 0, false, calls, k);
  }

  // ------------------------------------------------------------------
  // Stream ids, with the flag test and the locked bump as separate steps
  // ------------------------------------------------------------------

  /** `past` holds the callers that found the flag down and have not taken the lock yet; `given` is every id handed
      out, `bumps` the number of times the lock was taken. */
  datatype Allocator = Allocator(ids: IdState, past: set<nat>, given: seq<u32>, bumps: nat)

  datatype AllocStep = Test(caller: nat) | Lock(caller: nat)

  function Alloc(s: Allocator, a: AllocStep): Allocator {
    match a
    case Test(c) => if s.ids.goAway then s else s.(past := s.past + {c})
    case Lock(c) =>
      if c !in s.past then s
      else
        var (ids, r) := Bump(s.ids);
        Allocator(ids, s.past - {c}, s.given + (if r.Some? then [r.value] else []), s.bumps + 1)
  }

  function AllocRun(s: Allocator, acts: seq<AllocStep>): Allocator
    decreases |acts|
  {
    if acts == [] then s else AllocRun(Alloc(s, acts[0]), acts[1..])
  }

  function NoIds(isClient: bool): Allocator { Allocator(FirstIds(isClient), {}, [], 0) }

  /** The bump that wraps the counter, and is refused. */
  const OVERFLOW: nat := 0x8000_0000

  /** The id of the k-th locked bump. */
  function IdOf(start: u32, k: nat): u32
    decreases start, k
  {
    if k == 0 then start else PlusTwo(IdOf(start, k - 1))
  }

  /** The ids of the first n locked bumps. */
  function GivenBy(start: u32, n: nat): seq<u32>
    decreases start, n
  {
    if n == 0 then []
    else GivenBy(start, n - 1) + (if Wrapped(IdOf(start, n)) then [] else [IdOf(start, n)])
  }

  predicate Distinct(ids: seq<u32>) { forall i, j :: 0 <= i < j < |ids| ==> ids[i] != ids[j] }

  /** Before the overflow the counter climbs; then it stands at its start. */
  lemma {:induction false} IdOfIs(start: nat, k: nat)
    requires start < 2 && k <= OVERFLOW
    ensures IdOf(start, k) == if k < OVERFLOW then start + 2 * k else start
    decreases k
  {
    hide PlusTwo;
    if k > 0 {
      IdOfIs(start, k - 1);
      PlusTwoIs(IdOf(start, k - 1));
    }
  }

  lemma IdOfBump(start: nat, n: nat)
    requires start < 2 && 0 < n <= OVERFLOW + 1
    ensures IdOf(start, n) == start + 2 * (if n < OVERFLOW then n else n - OVERFLOW)
    ensures Wrapped(IdOf(start, n)) <==> n == OVERFLOW
  {
    hide PlusTwo;
    if n <= OVERFLOW {
      IdOfIs(start, n);
    } else {
      IdOfIs(start, n - 1);
      PlusTwoIs(start);
    }
  }

  /** What one more bump hands out. */
  lemma GivenNext(start: nat, n: nat)
    requires start < 2 && 0 < n <= OVERFLOW + 1
    ensures n < OVERFLOW ==> GivenBy(start, n) == GivenBy(start, n - 1) + [start + 2 * n]
    ensures n == OVERFLOW ==> GivenBy(start, n) == GivenBy(start, n - 1)
    ensures n == OVERFLOW + 1 ==> GivenBy(start, n) == GivenBy(start, n - 1) + [start + 2]
  {
    hide IdOf, Wrapped;
    IdOfBump(start, n);
    assert GivenBy(start, n - 1) + [] == GivenBy(start, n - 1);
  }

  /** Up to the overflow every bump but the last hands out its own id. */
  lemma {:induction false} GivenIs(start: nat, n: nat)
    requires start < 2 && n <= OVERFLOW
    ensures |GivenBy(start, n)| == if n == OVERFLOW then n - 1 else n
    ensures forall i :: 0 <= i < |GivenBy(start, n)| ==> GivenBy(start, n)[i] == start + 2 * (i + 1)
    decreases n
  {
    if n == 0 {
      assert GivenBy(start, n) == [];
    } else {
      hide GivenBy;
      GivenIs(start, n - 1);
      GivenNext(start, n);
    }
  }

  lemma {:induction false} GivenGrows(start: u32, n: nat, m: nat)
    requires n <= m
    ensures GivenBy(start, n) <= GivenBy(start, m)
    decreases m
  {
    if n < m { GivenGrows(start, n, m - 1); }
  }

  lemma GivenDistinctIff(start: nat, n: nat)
    requires start < 2
    ensures Distinct(GivenBy(start, n)) <==> n <= OVERFLOW
  {
    hide GivenBy;
    if n <= OVERFLOW {
      GivenIs(start, n);
    } else {
      var k: nat :| k == OVERFLOW;
      GivenIs(start, k);
      GivenNext(start, k + 1);
      var early, late := GivenBy(start, k), GivenBy(start, k + 1);
      assert late[0] == early[0] == start + 2 == late[|late| - 1] && |late| > 1;
      GivenGrows(start, k + 1, n);
    }
  }

  predicate AllocInv(start: u32, s: Allocator) {
    && s.given == GivenBy(start, s.bumps)
    && s.ids.last == IdOf(start, s.bumps)
    && (s.ids.goAway <==> s.bumps >= OVERFLOW)
  }

  lemma BumpIs(start: nat, n: nat, goAway: bool)
    requires start < 2 && (goAway <==> n >= OVERFLOW)
    ensures var (ids, r) := Bump(IdState(IdOf(start, n), goAway));
            && ids == IdState(IdOf(start, n + 1), n + 1 >= OVERFLOW)
            && r == if Wrapped(IdOf(start, n + 1)) then None else Some(IdOf(start, n + 1))
  {
    hide Wrapped, PlusTwo;
    if n + 1 <= OVERFLOW { IdOfBump(start, n + 1); }
  }

  lemma AllocKeeps(start: nat, s: Allocator, a: AllocStep)
    requires start < 2 && AllocInv(start, s)
    ensures AllocInv(start, Alloc(s, a))
  {
    hide IdOf, Bump, Wrapped;
    BumpIs(start, s.bumps, s.ids.goAway);
    assert s.given + [] == s.given;
  }

  lemma {:induction false} AllocRunKeeps(start: nat, s: Allocator, acts: seq<AllocStep>)
    requires start < 2 && AllocInv(start, s)
    ensures AllocInv(start, AllocRun(s, acts))
    decreases |acts|
  {
    if acts != [] {
      AllocKeeps(start, s, acts[0]);
      AllocRunKeeps(start, Alloc(s, acts[0]), acts[1..]);
    }
  }

  /** In every interleaving of any number of callers, the ids handed out are pairwise distinct if and only if no
      locked bump follows the overflowing one. */
  lemma IdsDistinctIff(isClient: bool, acts: seq<AllocStep>)
    ensures var s := AllocRun(NoIds(isClient), acts);
            Distinct(s.given) <==> s.bumps <= OVERFLOW
  {
    hide GivenBy, IdOf, Alloc;
    var start := if isClient then 1 else 0;
    NoIdsHold(isClient);
    AllocRunKeeps(start, NoIds(isClient), acts);
    GivenDistinctIff(start, AllocRun(NoIds(isClient), acts).bumps);
  }

  /** A call that runs undisturbed is the allocation of before. */
  lemma LoneCallAllocates(s: Allocator, c: nat)
    requires c !in s.past
    ensures var t, (ids, r) := Alloc(Alloc(s, Test(c)), Lock(c)), NextId(s.ids);
            && t.ids == ids && t.past == s.past
            && t.given == s.given + (if r.Some? then [r.value] else [])
  {
    hide Bump;
    assert s.given + [] == s.given;
  }

  /** With the flag up and nobody past the test, no lock is taken again. */
  lemma {:induction false} NobodyLocks(s: Allocator, acts: seq<AllocStep>)
    requires s.ids.goAway && s.past == {}
    ensures AllocRun(s, acts) == s
    decreases |acts|
  {
    if acts != [] { NobodyLocks(s, acts[1..]); }
  }

  ghost predicate StaysDistinct(s: Allocator) {
    forall more: seq<AllocStep> :: Distinct(AllocRun(s, more).given)
  }

  /** When the counter overflows, every continuation keeps the ids distinct if and only if no other caller is past
      the flag test; one that is gets the very first id again. */
  lemma OverflowIsSafeIff(isClient: bool, acts: seq<AllocStep>)
    requires AllocRun(NoIds(isClient), acts).bumps == OVERFLOW
    ensures var s := AllocRun(NoIds(isClient), acts);
            && (StaysDistinct(s) <==> s.past == {})
            && (forall c :: c in s.past ==> Alloc(s, Lock(c)).given == s.given + [(if isClient then 1 else 0) + 2])
  {
    hide GivenBy, IdOf, Alloc, AllocInv, StaysDistinct;
    var s := AllocRun(NoIds(isClient), acts);
    var start := if isClient then 1 else 0;
    NoIdsHold(isClient);
    AllocRunKeeps(start, NoIds(isClient), acts);
    OverflowIsSafe(start, s);
    LastAtOverflow(start, s);
    forall c | c in s.past ensures Alloc(s, Lock(c)).given == s.given + [start + 2] { LateCallerReusesFirstId(start, s, c); }
  }

  lemma NoIdsHold(isClient: bool)
    ensures AllocInv(if isClient then 1 else 0, NoIds(isClient))
  {}

  lemma LastAtOverflow(start: nat, s: Allocator)
    requires start < 2 && AllocInv(start, s) && s.bumps == OVERFLOW
    ensures s.ids.last == start
  {
    hide GivenBy, IdOf;
    IdOfIs(start, s.bumps);
  }

  lemma LateCallerReusesFirstId(start: nat, s: Allocator, c: nat)
    requires start < 2 && s.ids.last == start && c in s.past
    ensures Alloc(s, Lock(c)).given == s.given + [start + 2]
  {}

  lemma OverflowIsSafe(start: nat, s: Allocator)
    requires start < 2 && AllocInv(start, s) && s.bumps == OVERFLOW
    ensures StaysDistinct(s) <==> s.past == {}
  {
    hide GivenBy;
    if s.past == {} {
      GivenDistinctIff(start, s.bumps);
      forall more: seq<AllocStep> ensures Distinct(AllocRun(s, more).given) { NobodyLocks(s, more); }
    } else {
      var c :| c in s.past;
      var s' := Alloc(s, Lock(c));
      var more := [Lock(c)];
      assert AllocRun(s, more) == AllocRun(s', []) == s';
      AllocKeeps(start, s, Lock(c));
      GivenDistinctIff(start, s'.bumps);
      assert !Distinct(AllocRun(s, more).given);
    }
  }

  // ------------------------------------------------------------------
  // One stream's receive side
  // ------------------------------------------------------------------

  class StreamShared {
    const id: u32
    var chunks: seq<seq<byte>>
    var head: nat               // read offset into the first chunk
    var buffered: nat
    var fin: bool
    var dead: bool

    predicate Valid()
      reads this`chunks, this`head, this`buffered
    {
      && (if chunks == [] then head == 0 else head <= |chunks[0]|)
      && head + buffered == |Flatten(chunks)|
    }

    /** The bytes received and not yet read. */
    function Unread(): (s: seq<byte>)
      requires Valid()
      reads this`chunks, this`head, this`buffered
      ensures |s| == buffered
    {
      Flatten(chunks)[head..]
    }

    constructor (id: u32)
      ensures Valid() && Unread() == [] && buffered == 0 && !fin && !dead && this.id == id
    {
      this.id := id;
      chunks, head, buffered, fin, dead := [], 0, 0, false, false;
    }

    method PushBytes(d: seq<byte>)
      requires Valid()
      modifies this
      ensures Valid() && Unread() == old(Unread()) + d
      ensures fin == old(fin) && dead == old(dead)
    {
      FlattenAppend(chunks, [d]);
      assert Flatten([d]) == d;
      buffered := buffered + |d|;
      chunks := chunks + [d];
    }

    method SetFin()
      modifies this`fin
      ensures fin
    {
      fin := true;
    }

    method SetDead()
      modifies this`dead
      ensures dead
    {
      dead := true;
    }

    method Recycle() returns (n: nat)
      requires Valid()
      modifies this
      ensures Valid() && Unread() == [] && n == old(buffered)
      ensures fin == old(fin) && dead == old(dead)
    {
      n := buffered;
      chunks, head, buffered := [], 0, 0;
    }

    /** Copies from the first chunk; a chunk read to its end is popped, a partly read one keeps its cursor. */
    method TakeFront(cap: nat) returns (out: seq<byte>)
      requires Valid() && chunks != [] && cap > 0
      modifies this
      ensures Valid() && out + Unread() == old(Unread()) && |out| <= cap
      ensures |out| == cap || |chunks| < |old(chunks)|
      ensures |chunks| <= |old(chunks)|
      ensures fin == old(fin) && dead == old(dead)
    {
      hide Flatten;
      FlattenHead(chunks, head);
      FlattenHead(chunks, 0);
      var avail := chunks[0][head..];
      var n := Min(|avail|, cap);
      ghost var later := Flatten(chunks[1..]);
      out := avail[..n];
      assert Unread() == out + (avail[n..] + later);
      buffered := buffered - n;
      if head + n == |chunks[0]| {
        assert avail[n..] + later == later[0..];
        chunks, head := chunks[1..], 0;
        FlattenEmpty(chunks);
      } else {
        FlattenHead(chunks, head + n);
        head := head + n;
      }
    }

    /** The copying loop of a read. */
    method TakeBytes(cap: nat) returns (out: seq<byte>)
      requires Valid()
      modifies this
      ensures Valid()
      ensures out == old(Unread())[..Min(cap, old(buffered))]
      ensures Unread() == old(Unread())[|out|..]
      ensures fin == old(fin) && dead == old(dead)
    {
      hide Flatten;
      out := [];
      while |out| < cap && chunks != []
        invariant Valid()
        invariant |out| <= cap && out + Unread() == old(Unread())
        invariant fin == old(fin) && dead == old(dead)
        decreases |chunks| + cap - |out|
      {
        var piece := TakeFront(cap - |out|);
        out := out + piece;
      }
      FlattenEmpty(chunks);
    }
  }

  lemma FlattenHead(chunks: seq<seq<byte>>, head: nat)
    requires chunks != [] && head <= |chunks[0]|
    ensures Flatten(chunks)[head..] == chunks[0][head..] + Flatten(chunks[1..])
    ensures |Flatten(chunks)| == |chunks[0]| + |Flatten(chunks[1..])|
  {}

  lemma FlattenEmpty(chunks: seq<seq<byte>>)
    ensures chunks == [] ==> Flatten(chunks) == []
  {}

  // ------------------------------------------------------------------
  // The session
  // ------------------------------------------------------------------

  /** What one attempt to hand a stream over meets: room, nobody listening, or a full backlog in a session that by then
      has died or not. */
  datatype Try = Taken | NobodyListens | Full(died: bool)

  /** The first attempt that is not to be repeated decides. */
  function Handover(tries: seq<Try>): Option<bool> {
    if tries == [] then None
    else match tries[0]
      case Taken => Some(true)
      case NobodyListens => Some(false)
      case Full(died) => if died then Some(false) else Handover(tries[1..])
  }

  /** Attempts that find the backlog full and the session alive are repeated. */
  predicate AllWait(tries: seq<Try>, n: nat)
    requires n <= |tries|
  {
    forall j :: 0 <= j < n ==> tries[j] == Full(false)
  }

  lemma {:induction false} HandoverIs(tries: seq<Try>)
    ensures Handover(tries) == None <==> AllWait(tries, |tries|)
    ensures Handover(tries) == Some(true) <==> exists i :: 0 <= i < |tries| && tries[i] == Taken && AllWait(tries, i)
    ensures Handover(tries) == Some(false) <==>
            exists i :: 0 <= i < |tries| && (tries[i] == NobodyListens || tries[i] == Full(true)) && AllWait(tries, i)
  {
    if tries != [] {
      if tries[0] == Full(false) {
        HandoverIs(tries[1..]);
        forall i | 0 <= i < |tries| ensures i > 0 ==> (AllWait(tries, i) <==> AllWait(tries[1..], i - 1)) {
          assert forall j :: 0 < j < |tries| ==> tries[j] == tries[1..][j - 1];
        }
        assert AllWait(tries, |tries|) <==> AllWait(tries[1..], |tries| - 1) by {
          assert forall j :: 0 < j < |tries| ==> tries[j] == tries[1..][j - 1];
        }
        ShiftWitness(tries, Taken);
        ShiftWitness(tries, NobodyListens);
        ShiftWitness(tries, Full(true));
      } else {
        assert AllWait(tries, 0) && tries[0] != Full(false);
      }
    }
  }

  lemma ShiftWitness(tries: seq<Try>, t: Try)
    requires tries != [] && tries[0] == Full(false) && t != Full(false)
    ensures (exists i :: 0 <= i < |tries| && tries[i] == t && AllWait(tries, i))
            <==> (exists i :: 0 <= i < |tries[1..]| && tries[1..][i] == t && AllWait(tries[1..], i))
  {
    if i :| 0 <= i < |tries| && tries[i] == t && AllWait(tries, i) {
      assert tries[1..][i - 1] == t && AllWait(tries[1..], i - 1);
    }
    if i :| 0 <= i < |tries[1..]| && tries[1..][i] == t && AllWait(tries[1..], i) {
      assert tries[i + 1] == t;
      assert forall j :: 0 < j < i + 1 ==> tries[j] == tries[1..][j - 1];
      assert AllWait(tries, i + 1);
    }
  }

  class SessionShared {
    var streams: map<u32, StreamShared>
    var ids: IdState
    var closed: bool
    var bucket: int             // receive credit in bytes
    var notified: nat           // how often the reader's notifier has been rung
    var wakeups: nat            // how often everybody waiting on it has been woken at once
    var error: Option<string>   // the first cause of death
    var backlog: seq<MuxStream> // streams waiting to be accepted
    const version: byte
    const frameSize: nat
    const queue: WriteQueue

    constructor (isClient: bool, maxReceiveBuffer: nat, frameSize: nat, version: byte)
      ensures streams == map[] && ids == FirstIds(isClient) && !closed && bucket == maxReceiveBuffer
      ensures backlog == [] && notified == 0 && wakeups == 0 && error == None && this.version == version && this.frameSize == frameSize
      ensures fresh(queue) && queue.View() == EMPTY && queue.limit == SendQueueLimit(frameSize)
    {
      streams, ids, closed := map[], FirstIds(isClient), false;
      bucket, notified, wakeups, error, backlog := maxReceiveBuffer, 0, 0, None, [];
      this.version, this.frameSize := version, frameSize;
      queue := new WriteQueue(SendQueueLimit(frameSize));
    }

    method AllocateId() returns (sid: Option<u32>)
      modifies this`ids
      ensures (ids, sid) == NextId(old(ids))
    {
      if ids.goAway {
        return None;
      }
      var next := (ids.last + 2) % 0x1_0000_0000;
      ids := ids.(last := next);
      if next == next % 2 {
        ids := ids.(goAway := true);
        return None;
      }
      return Some(next);
    }

    /** Refunds credit; the reader is rung exactly when the refund is what made the credit positive. */
    method ReturnTokens(n: nat)
      modifies this`bucket, this`notified
      ensures bucket == old(bucket) + n
      ensures notified == old(notified) + if old(bucket) <= 0 < old(bucket) + n then 1 else 0
    {
      if n == 0 {
        return;
      }
      var before := bucket;
      bucket := bucket + n;
      if before <= 0 && before + n > 0 {
        notified := notified + 1;
      }
    }

    predicate TableValid()
      reads this`streams, streams.Values
    {
      forall sid :: sid in streams ==> streams[sid].Valid() && streams[sid].id == sid
    }

    /** PSH: the bytes go to the registered stream and are charged to the credit; otherwise they are dropped. */
    method OnPush(f: Frame)
      requires TableValid()
      modifies this`bucket, streams.Values
      ensures streams == old(streams) && TableValid()
      ensures forall sid :: sid in streams ==>
                && streams[sid].Unread() == old(streams[sid].Unread()) + (if sid == f.sid then f.data else [])
                && streams[sid].fin == old(streams[sid].fin) && streams[sid].dead == old(streams[sid].dead)
      ensures bucket == old(bucket) - if f.sid in streams then |f.data| else 0
    {
      assert forall sid :: sid in streams ==> streams[sid].Unread() + [] == streams[sid].Unread();
      if |f.data| > 0 && f.sid in streams {
        bucket := bucket - |f.data|;
        streams[f.sid].PushBytes(f.data);
      }
    }

    method OnFin(f: Frame)
      requires TableValid()
      modifies streams.Values
      ensures streams == old(streams) && TableValid()
      ensures forall sid :: sid in streams ==>
                && streams[sid].Unread() == old(streams[sid].Unread())
                && streams[sid].fin == (old(streams[sid].fin) || sid == f.sid)
                && streams[sid].dead == old(streams[sid].dead)
    {
      if f.sid in streams {
        streams[f.sid].SetFin();
      }
    }

    /** Hands a new stream over: a full backlog is tried again as long as the session lives, and a handle that cannot be
        handed over is dropped. `None` while it is still waiting. */
    method DeliverAccept(h: MuxStream, tries: seq<Try>) returns (r: Option<bool>)
      requires h.session == this && h.state.Valid() && h.state.buffered == 0
      modifies this`streams, this`backlog, this`bucket, this`notified, queue, h, h.state
      ensures r == Handover(tries)
      ensures r != Some(true) ==> backlog == old(backlog)
      ensures r == Some(true) ==> backlog == old(backlog) + [h]
      ensures r != Some(false) ==>
                && streams == old(streams) && queue.View() == old(queue.View())
                && h.finSent == old(h.finSent) && h.lastPush == old(h.lastPush)
                && h.state.fin == old(h.state.fin) && h.state.dead == old(h.state.dead)
      ensures r == Some(false) ==>
                && streams == old(streams) - {h.state.id} && h.finSent
                && queue.View() == if old(h.finSent) then old(queue.View())
                                   else PushData(old(queue.View()), Frame(version, CMD_FIN, h.state.id, []))
      ensures h.state.Valid() && h.state.Unread() == [] && bucket == old(bucket)
    {
      for i := 0 to |tries|
        invariant Handover(tries) == Handover(tries[i..])
        invariant backlog == old(backlog) && streams == old(streams) && queue.View() == old(queue.View())
        invariant h.state.Valid() && h.state.buffered == 0 && bucket == old(bucket)
        invariant h.finSent == old(h.finSent) && h.lastPush == old(h.lastPush)
        invariant h.state.fin == old(h.state.fin) && h.state.dead == old(h.state.dead)
      {
        assert tries[i..][1..] == tries[i + 1..];
        if tries[i] == Taken {
          backlog := backlog + [h];
          return Some(true);
        }
        if tries[i] != Full(false) {
          h.Drop();
          return Some(false);
        }
      }
      return None;
    }

    /** SYN: unless the id is taken, a stream is registered and its handle handed over to be accepted. When nobody
        accepts any more the handle is dropped on the spot, which takes the stream out again behind a FIN, and the
        reader stops. */
    method OnSyn(f: Frame, tries: seq<Try>) returns (goOn: Option<bool>)
      requires TableValid()
      modifies this`streams, this`backlog, this`bucket, this`notified, queue
      ensures TableValid() && bucket == old(bucket)
      ensures goOn == if f.sid in old(streams) then Some(true) else Handover(tries)
      ensures f.sid in old(streams) ==> streams == old(streams) && backlog == old(backlog)
      ensures goOn != Some(false) ==> queue.View() == old(queue.View())
      ensures f.sid !in old(streams) && goOn != Some(false) ==>
                && f.sid in streams && fresh(streams[f.sid])
                && streams == old(streams)[f.sid := streams[f.sid]]
                && streams[f.sid].Unread() == [] && !streams[f.sid].fin && !streams[f.sid].dead
      ensures f.sid !in old(streams) && goOn == Some(true) ==>
                && |backlog| == |old(backlog)| + 1 && backlog[..|old(backlog)|] == old(backlog)
                && var h := backlog[|old(backlog)|];
                   fresh(h) && h.state == streams[f.sid] && h.session == this && h.lastPush == 0 && !h.finSent
      ensures goOn != Some(true) ==> backlog == old(backlog)
      ensures goOn == Some(false) ==>
                && streams == old(streams)
                && queue.View() == PushData(old(queue.View()), Frame(version, CMD_FIN, f.sid, []))
    {
      hide Flatten, StreamShared.Valid, StreamShared.Unread;
      if f.sid in streams {
        return Some(true);
      }
      var h := Register(f.sid);
      goOn := DeliverAccept(h, tries);
      if goOn == Some(false) {
        assert streams == old(streams);
      }
    }

    /** A new stream under a free id. */
    method Register(sid: u32) returns (h: MuxStream)
      requires TableValid() && sid !in streams
      modifies this`streams
      ensures TableValid() && streams == old(streams)[sid := h.state]
      ensures fresh(h) && fresh(h.state) && h.session == this && h.lastPush == 0 && !h.finSent
      ensures h.state.id == sid && h.state.Valid() && h.state.Unread() == [] && !h.state.fin && !h.state.dead
      ensures h.state.buffered == 0
    {
      hide Flatten, StreamShared.Valid, StreamShared.Unread;
      var s := new StreamShared(sid);
      streams := streams[sid := s];
      h := new MuxStream(s, this, 0);
    }

    /** The session dies, once: the queue closes, every registered stream is told and leaves the table with its unread
        bytes still there to be read, and the reader is rung. The first cause is the one kept. */
    method Fail(cause: string)
      requires TableValid()
      modifies this`closed, this`streams, this`notified, this`wakeups, this`error, queue, streams.Values`dead
      ensures closed && TableValid()
      ensures error == if old(error).Some? then old(error) else Some(cause)
      ensures old(closed) ==>
                && streams == old(streams) && queue.View() == old(queue.View())
                && notified == old(notified) && wakeups == old(wakeups)
                && forall sid :: sid in streams ==> streams[sid].dead == old(streams[sid].dead)
      ensures !old(closed) ==>
                && streams == map[] && notified == old(notified) + 1 && wakeups == old(wakeups) + 1
                && queue.View() == old(queue.View()).(closed := true)
                && forall sid :: sid in old(streams) ==> old(streams)[sid].dead
    {
      if error.None? {
        error := Some(cause);
      }
      if closed {
        return;
      }
      closed := true;
      queue.Close();
      var all := streams;
      streams := map[];
      KillAll(all);
      wakeups := wakeups + 1;
      notified := notified + 1;
    }

    method KillAll(all: map<u32, StreamShared>)
      modifies all.Values`dead
      ensures forall sid :: sid in all ==> all[sid].dead
    {
      var left := all;
      while left != map[]
        invariant forall sid :: sid in left ==> sid in all && left[sid] == all[sid]
        invariant forall sid :: sid in all ==> sid in left || all[sid].dead
        decreases |left|
      {
        var sid :| sid in left;
        left[sid].SetDead();
        left := left - {sid};
      }
    }
  }

  // ------------------------------------------------------------------
  // The stream handle
  // ------------------------------------------------------------------

  datatype ReadOutcome = Delivered(bytes: seq<byte>) | Eof | ReadFailed | ReadPending
  datatype WriteOutcome = Accepted(n: nat) | WriteFailed | WritePending

  class MuxStream {
    const state: StreamShared
    const session: SessionShared
    var lastPush: nat
    var finSent: bool

    constructor (state: StreamShared, session: SessionShared, lastPush: nat)
      ensures this.state == state && this.session == session && this.lastPush == lastPush && !finSent
    {
      this.state, this.session, this.lastPush, finSent := state, session, lastPush, false;
    }

    /** A read takes a prefix of the unread bytes and refunds it; end of file is reported only by FIN, only once
        nothing is left, and in preference to the session's death. */
    method PollRead(cap: nat) returns (r: ReadOutcome)
      requires state.Valid()
      modifies state, session`bucket, session`notified
      ensures state.Valid()
      ensures var before := old(state.Unread());
              var k := Min(cap, |before|);
              && state.Unread() == before[k..]
              && session.bucket == old(session.bucket) + k
              && r == if cap == 0 || k > 0 then Delivered(before[..k])
                      else if state.fin then Eof
                      else if state.dead || session.closed then ReadFailed
                      else ReadPending
      ensures state.fin == old(state.fin) && state.dead == old(state.dead)
    {
      if cap == 0 {
        return Delivered([]);
      }
      var out := state.TakeBytes(cap);
      if |out| > 0 {
        session.ReturnTokens(|out|);
        return Delivered(out);
      }
      if state.fin {
        return Eof;
      }
      if state.dead || session.closed {
        return ReadFailed;
      }
      return ReadPending;
    }

    /** A write queues one PSH frame of at most a frame's worth, or nothing at all: an empty one asks for nothing, one
        after FIN or on a dead stream or session fails, and one that meets a full queue waits. */
    method PollWrite(buf: seq<byte>) returns (r: WriteOutcome)
      modifies this`lastPush, session.queue
      ensures buf == [] ==> r == Accepted(0)
      ensures buf != [] ==>
                (r == WriteFailed <==> finSent || session.closed || state.dead || old(session.queue.closed))
      ensures buf != [] && r != WriteFailed ==>
                && (r == WritePending <==> old(session.queue.dataBytes) >= session.queue.limit)
                && (r != WritePending ==> r == Accepted(Min(|buf|, session.frameSize)))
      ensures r.Accepted? && buf != [] ==>
                && session.queue.View() == PushData(old(session.queue.View()),
                                                    Frame(session.version, CMD_PSH, state.id, buf[..r.n]))
                && lastPush == session.queue.pushed == old(session.queue.pushed) + 1
      ensures !r.Accepted? || buf == [] ==> session.queue.View() == old(session.queue.View()) && lastPush == old(lastPush)
    {
      if buf == [] {
        return Accepted(0);
      }
      if finSent || session.closed || state.dead {
        return WriteFailed;
      }
      var ready := session.queue.PollReserve();
      if ready == Pending {
        return WritePending;
      }
      if ready == Refused {
        return WriteFailed;
      }
      var n := Min(|buf|, session.frameSize);
      var seqno := session.queue.ForcePushData(Frame(session.version, CMD_PSH, state.id, buf[..n]));
      if seqno.None? {
        return WriteFailed;
      }
      lastPush := seqno.value;
      return Accepted(n);
    }

    /** FIN is queued at most once, behind this stream's data. */
    method SendFin()
      modifies this`finSent, this`lastPush, session.queue
      ensures finSent
      ensures session.queue.View() ==
              if old(finSent) then old(session.queue.View())
              else PushData(old(session.queue.View()), Frame(session.version, CMD_FIN, state.id, []))
      ensures lastPush == if old(finSent) || old(session.queue.closed) then old(lastPush) else session.queue.pushed
    {
      if finSent {
        return;
      }
      finSent := true;
      var seqno := session.queue.ForcePushData(Frame(session.version, CMD_FIN, state.id, []));
      if seqno.Some? {
        lastPush := seqno.value;
      }
    }

    /** Dropping the handle: FIN, then leave the table and give the unread bytes' credit back, unless the id was
        no longer in the table. */
    method Drop()
      requires state.Valid()
      modifies this, state, session`streams, session`bucket, session`notified, session.queue
      ensures finSent && state.Valid()
      ensures session.streams == old(session.streams) - {state.id}
      ensures var refund := if state.id in old(session.streams) then old(state.buffered) else 0;
              session.bucket == old(session.bucket) + refund
      ensures state.Unread() == if state.id in old(session.streams) then [] else old(state.Unread())
      ensures session.queue.View() ==
              if old(finSent) then old(session.queue.View())
              else PushData(old(session.queue.View()), Frame(session.version, CMD_FIN, state.id, []))
      ensures lastPush == if old(finSent) || old(session.queue.closed) then old(lastPush) else session.queue.pushed
      ensures state.fin == old(state.fin) && state.dead == old(state.dead)
    {
      SendFin();
      if state.id in session.streams {
        session.streams := session.streams - {state.id};
        var refund := state.Recycle();
        session.ReturnTokens(refund);
      }
    }
  }

  // ------------------------------------------------------------------
  // Nothing follows a stream's FIN
  // ------------------------------------------------------------------

  /** No payload of this stream stands behind its FIN, and there is no FIN before one was asked for. */
  predicate FinComesLast(fs: seq<Frame>, sid: u32, finSent: bool) {
    && (forall i, j :: 0 <= i < j < |fs| && fs[i].sid == sid && fs[i].cmd == CMD_FIN && fs[j].sid == sid ==>
          fs[j].cmd != CMD_PSH)
    && (!finSent ==> forall i :: 0 <= i < |fs| && fs[i].sid == sid ==> fs[i].cmd != CMD_FIN)
  }

  lemma FinStaysLast(fs: seq<Frame>, f: Frame, sid: u32, before: bool, after: bool)
    requires FinComesLast(fs, sid, before) && (before ==> after)
    requires f.sid == sid && (f.cmd == CMD_PSH ==> !before) && (f.cmd == CMD_FIN ==> after)
    ensures FinComesLast(fs + [f], sid, after)
  {}

  datatype Call = Put(buf: seq<byte>) | Finish | Batch

  /** Over any sequence of writes, FINs and batches taken by the writer, in everything the stream has sent no payload
      follows its FIN. `sent` is what was taken before. */
  method RunCalls(h: MuxStream, calls: seq<Call>, sent: seq<Frame>) returns (all: seq<Frame>)
    requires FinComesLast(sent + h.session.queue.data, h.state.id, h.finSent)
    requires forall i :: 0 <= i < |h.session.queue.ctrl| ==> h.session.queue.ctrl[i].sid != h.state.id
    modifies h`finSent, h`lastPush, h.session.queue
    ensures FinComesLast(all + h.session.queue.data, h.state.id, h.finSent)
    ensures Finish in calls ==> h.finSent
  {
    all := sent;
    var q, sid := h.session.queue, h.state.id;
    for i := 0 to |calls|
      invariant FinComesLast(all + q.data, sid, h.finSent)
      invariant forall k :: 0 <= k < |q.ctrl| ==> q.ctrl[k].sid != sid
      invariant Finish in calls[..i] ==> h.finSent
    {
      ghost var data, fin := q.data, h.finSent;
      match calls[i]
      case Put(buf) =>
        var r := h.PollWrite(buf);
        if r.Accepted? && buf != [] {
          assert all + q.data == all + data + [q.data[|data|]];
          FinStaysLast(all + data, q.data[|data|], sid, fin, fin);
        }
      case Finish =>
        h.SendFin();
        if q.data != data {
          assert all + q.data == all + data + [q.data[|data|]];
          FinStaysLast(all + data, q.data[|data|], sid, fin, true);
        } else {
          assert FinComesLast(all + data, sid, true);
        }
      case Batch =>
        ghost var ctrl := q.ctrl;
        var batch := q.Take();
        if batch.Some? {
          CtrlIsSilent(all, ctrl, data, sid, fin);
          all := all + batch.value;
          assert all + [] == all;
        }
    }
  }

  /** Keepalives carry no stream's id, so overtaking changes nothing. */
  lemma CtrlIsSilent(all: seq<Frame>, ctrl: seq<Frame>, data: seq<Frame>, sid: u32, fin: bool)
    requires FinComesLast(all + data, sid, fin) && forall k :: 0 <= k < |ctrl| ==> ctrl[k].sid != sid
    ensures FinComesLast(all + (ctrl + data), sid, fin)
  {
    var x, y := all + (ctrl + data), all + data;
    assert forall i :: 0 <= i < |x| && x[i].sid == sid ==>
             x[i] == y[if i < |all| then i else i - |ctrl|] && (i < |all| || i >= |all| + |ctrl|);
  }
}
