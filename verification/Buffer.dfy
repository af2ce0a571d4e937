/** buf.c: the growable buffer.  Whatever its head room, spare capacity and allocation scheme do, it
    behaves as a plain sequence of bytes. */
module Buffer {
  import opened Strings

  const INT_MAX: nat := 0x7FFF_FFFF
  const UINT_MAX: nat := 0xFFFF_FFFF
  const BASE_BUFFER_SIZE: nat := 4096

  datatype Scheme = DoubleIt | Exact | Immutable | IO | Hybrid

  /** A size as the 32-bit compatibility fields show it. */
  function Capped(n: nat): nat { if n < INT_MAX then n else INT_MAX }

  // ----- the plain byte sequence

  datatype Op =
    | Add(s: string)
    | AddHead(s: string)
    | Shrink(n: nat)
    | Grow(n: nat)
    | Inflate(n: nat)
    | Resize(n: nat)
    | Produce(s: string)   // bytes written behind the end, then xmlBufAddLen
    | Erase(n: nat)
    | Empty

  /** What an operation does to the bytes when it is not refused. */
  function Apply(s: string, op: Op): string
  {
    match op
    case Add(t) => s + t
    case AddHead(t) => t + s
    case Shrink(n) => if n <= |s| then s[n..] else s
    case Grow(_) => s
    case Inflate(_) => s
    case Resize(_) => s
    case Produce(t) => s + t
    case Erase(n) => if n <= |s| then s[..|s| - n] else s
    case Empty => ""
  }

  /** What a run of operations does to the bytes. */
  function Run(s: string, ops: seq<Op>): string
  {
    if ops == [] then s else Apply(Run(s, ops[..|ops| - 1]), ops[|ops| - 1])
  }

  lemma {:induction false} RunInTwo(s: string, a: seq<Op>, b: seq<Op>)
    ensures Run(s, a + b) == Run(Run(s, a), b)
    decreases |b|
  {
    if b == [] {
      assert a + b == a;
    } else {
      assert (a + b)[..|a + b| - 1] == a + b[..|b| - 1];
      RunInTwo(s, a, b[..|b| - 1]);
    }
  }

  predicate Removes(op: Op) { op.Shrink? || op.Erase? || op.Empty? }

  /** What takes back an operation that removes nothing. */
  function Undo(op: Op): Op
  {
    match op
    case Add(t) => if t == "" then Op.Shrink(0) else Op.Erase(|t|)
    case Produce(t) => if t == "" then Op.Shrink(0) else Op.Erase(|t|)
    case AddHead(t) => Op.Shrink(|t|)
    case _ => Op.Shrink(0)
  }

  function UndoAll(ops: seq<Op>): seq<Op>
  {
    if ops == [] then [] else [Undo(ops[|ops| - 1])] + UndoAll(ops[..|ops| - 1])
  }

  /** Any run that only adds is undone by erasing and shrinking in the opposite order. */
  lemma {:induction false} AdditionsUndone(s: string, ops: seq<Op>)
    requires forall k :: 0 <= k < |ops| ==> !Removes(ops[k])
    ensures Run(Run(s, ops), UndoAll(ops)) == s
    decreases |ops|
  {
    if ops != [] {
      var front, last := ops[..|ops| - 1], ops[|ops| - 1];
      var before := Run(s, front);
      assert Run(Apply(before, last), [Undo(last)]) == Apply(Apply(before, last), Undo(last)) by {
        assert [Undo(last)][..0] == [];
      }
      assert Apply(Apply(before, last), Undo(last)) == before;
      RunInTwo(Run(s, ops), [Undo(last)], UndoAll(front));
      AdditionsUndone(s, front);
    }
  }

  // ----- the layout

  /** What decides where bytes go.  `ended` says that the terminating zero is in place; `allocs` counts
      the allocations that realloc has made longer. */
  datatype Layout = Layout(blank: bool, io: bool, scheme: Scheme, offset: nat, use: nat, size: nat, error: bool,
      ended: bool, allocs: nat)

  /** What the bytes hold that nobody has written, by number of the allocation and position. */
  type Luck = (nat, nat) -> char

  predicate Fits(l: Layout)
  {
    && l.use <= l.size
    && (if l.blank then l.offset == 0 && l.size == 0 && !l.io else 0 < l.offset + l.size)
    && (l.io ==> l.scheme == IO)
    && (l.offset > 0 ==> l.io || l.scheme == Immutable)
    && (l.ended ==> l.use < l.size)
  }

  /** Not a byte is left for the terminating zero. */
  predicate Full(l: Layout) { l.use == l.size }

  function Doubled(n: nat, size: nat): (r: Option<nat>)
    requires n > 0
    ensures r.Some? ==> size <= r.value && n <= r.value
    decreases size - n
  {
    if size <= n then Some(n) else if n > UINT_MAX / 2 then None else Doubled(2 * n, size)
  }

  /** The size xmlBufResize chooses, if there is one of 32 bits. */
  function Aim(l: Layout, n: nat): (r: Option<nat>)
    requires Fits(l) && l.size <= n
    ensures r.Some? ==> n <= r.value
  {
    match l.scheme
    case IO => Doubled(if l.size > 0 then 2 * l.size else n + 10, n)
    case DoubleIt => Doubled(if l.size > 0 then 2 * l.size else n + 10, n)
    case Hybrid => if l.use < BASE_BUFFER_SIZE then Some(n) else Doubled(2 * l.size, n)
    case _ => Some(n + 10)
  }

  /** realloc: what comes behind the bytes the buffer knows is a matter of luck. */
  function Grown(l: Layout, n: nat, luck: Luck): Layout
  {
    l.(blank := false, size := n, allocs := l.allocs + 1,
       ended := if Full(l) then l.use < n && luck(l.allocs, l.offset + l.use) == '\0' else l.ended)
  }

  function MovedBack(l: Layout): Layout
  {
    l.(offset := 0, size := l.size + l.offset, ended := true)
  }

  function Refitted(l: Layout, n: nat, luck: Luck): Layout
    requires Fits(l)
  {
    if l.io && l.offset > n then MovedBack(l).(size := n)
    else if !l.io && !l.blank && l.size - l.use >= 100 then l.(size := n, ended := true)
    else Grown(l, n, luck)
  }

  function Settled(l: Layout, aim: Option<nat>, luck: Luck): Layout
    requires Fits(l)
  {
    if aim.None? then l.(error := true) else if aim.value == 0 then l else Refitted(l, aim.value, luck)
  }

  function Resized(l: Layout, n: nat, luck: Luck): (r: Layout)
    requires Fits(l)
    ensures Fits(r) && r.use == l.use && r.io == l.io
    ensures !r.error && l.scheme != Immutable ==> n <= r.size
  {
    if l.error || l.scheme == Immutable || n < l.size then l else Settled(l, Aim(l, n), luck)
  }

  /** Room for `extra` more bytes and two to spare. */
  function Room(l: Layout, extra: nat, luck: Luck): (r: Layout)
    requires Fits(l)
    ensures Fits(r) && r.use == l.use && (!r.error && l.scheme != Immutable ==> r.use + extra + 2 <= r.size)
  {
    if l.use + extra + 2 > l.size then Resized(l, l.use + extra + 2, luck) else l
  }

  function GrownBy(l: Layout, len: nat, luck: Luck): (r: Layout)
    requires Fits(l)
    ensures Fits(r)
  {
    if l.error || l.scheme == Immutable || l.use + len < l.size then l
    else Grown(l, if l.size > len then 2 * l.size else l.use + len + 100, luck)
  }

  function Advanced(l: Layout, n: nat): (r: Layout)
    requires Fits(l) && (l.io || l.scheme == Immutable) && 0 < n <= l.use
    ensures Fits(r)
  {
    var m := l.(use := l.use - n, offset := l.offset + n, size := l.size - n);
    if m.io && m.offset >= m.size then MovedBack(m) else m
  }

  function Extended(l: Layout, len: nat, luck: Luck): (r: Layout)
    requires Fits(l)
    ensures Fits(r)
  {
    var m := Room(l, len, luck);
    if m.error || m.scheme == Immutable then m else m.(use := m.use + len, ended := true)
  }

  /** What an operation does to the layout. */
  function After(l: Layout, op: Op, luck: Luck): (r: Layout)
    requires Fits(l)
    ensures Fits(r)
  {
    if l.error then l else
      match op
      case Add(s) => if s == "" then l else Extended(l, |s|, luck)
      case AddHead(s) =>
        if s == "" then l
        else if l.io && l.offset > |s| then
          l.(offset := l.offset - |s|, use := l.use + |s|, size := l.size + |s|)
        else Extended(l, |s|, luck)
      case Shrink(n) =>
        if n == 0 || n > l.use then l
        else if l.io || l.scheme == Immutable then Advanced(l, n)
        else l.(use := l.use - n, ended := true)
      case Grow(n) => if n == 0 then l else GrownBy(l, n, luck)
      case Inflate(n) => GrownBy(l, n + l.size, luck)
      case Resize(n) => Resized(l, n, luck)
      case Produce(s) =>
        if l.use + |s| <= l.size then l.(use := l.use + |s|, ended := l.use + |s| < l.size) else l
      case Erase(n) => if n <= l.use && l.use - n < l.size then l.(use := l.use - n, ended := true) else l
      case Empty =>
        if l.blank then l
        else if l.io then MovedBack(l.(use := 0))
        else l.(use := 0, ended := l.size > 0)
  }

  /** What the operation asks of its caller: sizes that fit 32 bits, free room for bytes produced
      directly, and nothing erased from a buffer filled to the last byte. */
  predicate Admits(l: Layout, op: Op)
  {
    && l.scheme != Immutable
    && match op
       case Add(s) => l.use + |s| + 2 <= UINT_MAX - 10 && l.size <= INT_MAX
       case AddHead(s) => l.use + |s| + 2 <= UINT_MAX - 10 && l.size <= INT_MAX
       case Resize(n) => n <= UINT_MAX - 10 && l.size <= INT_MAX && (l.blank && l.scheme == Hybrid ==> n > 0)
       case Produce(s) => s != "" && l.use + |s| <= l.size
       case Erase(n) => n <= l.use ==> l.use - n < l.size
       case _ => true
  }

  function RunLayout(l: Layout, ops: seq<Op>, luck: Luck): (r: Layout)
    requires Fits(l)
    ensures Fits(r)
  {
    if ops == [] then l else After(RunLayout(l, ops[..|ops| - 1], luck), ops[|ops| - 1], luck)
  }

  // ----- the terminating zero

  /** The operation puts the zero in place itself. */
  predicate Writes(l: Layout, op: Op)
    requires Fits(l)
  {
    match op
    case Add(s) => s != ""
    case AddHead(s) => s != "" && !(l.io && l.offset > |s|)
    case Shrink(n) => 0 < n <= l.use && (l.io ==> l.offset + n >= l.size - n)
    case Resize(n) =>
      && l.size <= n
      && if l.io then Aim(l, n).Some? && l.offset > Aim(l, n).value else !l.blank && l.size - l.use >= 100
    case Produce(s) => l.use + |s| < l.size
    case Erase(n) => n <= l.use
    case Empty => !l.blank
    case Grow(_) => false
    case Inflate(_) => false
  }

  predicate Succeeds(l: Layout, op: Op, luck: Luck)
    requires Fits(l)
  {
    !l.error && Admits(l, op) && !After(l, op, luck).error
  }

  /** The byte that memory holds right behind a full buffer. */
  function Behind(l: Layout, luck: Luck): char { luck(l.allocs, l.offset + l.use) }

  /** Room is made behind a full buffer by an operation that does not write there. */
  predicate Opens(l: Layout, op: Op, luck: Luck)
    requires Fits(l)
  {
    Full(l) && !Full(After(l, op, luck)) && !Writes(l, op)
  }

  /** What became of the zero from `l` to `r`. */
  predicate EndedBy(l: Layout, writes: bool, r: Layout, luck: Luck)
  {
    r.ended <==> !Full(r) && (writes || if Full(l) then Behind(l, luck) == '\0' else l.ended)
  }

  lemma ResizeEnded(l: Layout, n: nat, luck: Luck)
    requires Fits(l) && Succeeds(l, Op.Resize(n), luck)
    ensures EndedBy(l, Writes(l, Op.Resize(n)), After(l, Op.Resize(n), luck), luck)
  {
  }

  lemma ShrinkEnded(l: Layout, n: nat, luck: Luck)
    requires Fits(l) && Succeeds(l, Op.Shrink(n), luck)
    ensures EndedBy(l, Writes(l, Op.Shrink(n)), After(l, Op.Shrink(n), luck), luck)
  {
  }

  lemma OtherEnded(l: Layout, op: Op, luck: Luck)
    requires Fits(l) && Succeeds(l, op, luck) && !op.Resize? && !op.Shrink?
    ensures EndedBy(l, Writes(l, op), After(l, op, luck), luck)
  {
  }

  lemma StepEnded(l: Layout, op: Op, luck: Luck)
    requires Fits(l) && Succeeds(l, op, luck)
    ensures EndedBy(l, Writes(l, op), After(l, op, luck), luck)
  {
    match op
    case Resize(n) => ResizeEnded(l, n, luck);
    case Shrink(n) => ShrinkEnded(l, n, luck);
    case _ => OtherEnded(l, op, luck);
  }

  /** Only bytes produced directly fill a buffer to the last byte. */
  lemma StepFills(l: Layout, op: Op, luck: Luck)
    requires Fits(l) && Succeeds(l, op, luck) && !Full(l)
    ensures Full(After(l, op, luck)) <==> op.Produce? && l.use + |op.s| == l.size
  {
  }

  lemma ErrorKeepsLayout(l: Layout, op: Op, luck: Luck)
    requires Fits(l) && !l.error && Admits(l, op) && After(l, op, luck).error
    ensures After(l, op, luck) == l.(error := true)
  {
  }

  /** The layout after the first `k` operations. */
  function At(l: Layout, ops: seq<Op>, luck: Luck, k: nat): (r: Layout)
    requires Fits(l) && k <= |ops|
    ensures Fits(r)
  {
    RunLayout(l, ops[..k], luck)
  }

  lemma AtFront(l: Layout, ops: seq<Op>, luck: Luck, k: nat)
    requires Fits(l) && k < |ops|
    ensures At(l, ops, luck, k) == At(l, ops[..|ops| - 1], luck, k)
    ensures At(l, ops, luck, k + 1) == After(At(l, ops, luck, k), ops[k], luck)
  {
    assert ops[..|ops| - 1][..k] == ops[..k];
    assert ops[..k + 1][..k] == ops[..k];
  }

  /** Every operation of the run is admitted and none meets an error. */
  ghost predicate RunsThrough(l: Layout, ops: seq<Op>, luck: Luck)
    requires Fits(l)
  {
    forall k :: 0 <= k < |ops| ==> Succeeds(At(l, ops, luck, k), ops[k], luck)
  }

  ghost predicate EverFull(l: Layout, ops: seq<Op>, luck: Luck)
    requires Fits(l)
  {
    exists k :: 0 < k <= |ops| && Full(At(l, ops, luck, k))
  }

  lemma RunStep(l: Layout, ops: seq<Op>, op: Op, luck: Luck)
    requires Fits(l) && RunsThrough(l, ops, luck) && Succeeds(RunLayout(l, ops, luck), op, luck)
    ensures RunLayout(l, ops + [op], luck) == After(RunLayout(l, ops, luck), op, luck)
    ensures RunsThrough(l, ops + [op], luck)
    ensures EverFull(l, ops + [op], luck) <==> EverFull(l, ops, luck) || Full(RunLayout(l, ops + [op], luck))
  {
    var all := ops + [op];
    assert all[..|all| - 1] == ops;
    forall k | 0 <= k <= |ops| ensures At(l, all, luck, k) == At(l, ops, luck, k) { AtFront(l, all, luck, k); }
    assert ops[..|ops|] == ops && all[..|all|] == all;
    assert At(l, all, luck, |all|) == RunLayout(l, all, luck) && At(l, all, luck, |ops|) == RunLayout(l, ops, luck);
  }

  lemma StoppedEarly(l: Layout, ops: seq<Op>, luck: Luck, done: nat)
    requires Fits(l) && done < |ops| && !Succeeds(RunLayout(l, ops[..done], luck), ops[done], luck)
    ensures !RunsThrough(l, ops, luck)
  {
    assert At(l, ops, luck, done) == RunLayout(l, ops[..done], luck);
  }

  /** What one operation does about the zero: it opens a full buffer where memory holds no zero; it
      writes the zero, or leaves the buffer full. */
  datatype Mark = Mark(loses: bool, settles: bool)

  function MarkOf(l: Layout, op: Op, luck: Luck): Mark
    requires Fits(l)
  {
    Mark(Opens(l, op, luck) && Behind(l, luck) != '\0', Writes(l, op) || Full(After(l, op, luck)))
  }

  function Marks(l: Layout, ops: seq<Op>, luck: Luck): seq<Mark>
    requires Fits(l)
  {
    if ops == [] then []
    else
      var front := ops[..|ops| - 1];
      Marks(l, front, luck) + [MarkOf(RunLayout(l, front, luck), ops[|ops| - 1], luck)]
  }

  /** An operation loses the zero, and no later one writes it or fills the buffer again. */
  predicate LostIn(marks: seq<Mark>)
  {
    exists j :: 0 <= j < |marks| && marks[j].loses && forall i :: j < i < |marks| ==> !marks[i].settles
  }

  predicate Lost(l: Layout, ops: seq<Op>, luck: Luck)
    requires Fits(l)
  {
    LostIn(Marks(l, ops, luck))
  }

  lemma LostInFront(marks: seq<Mark>, last: Mark)
    ensures LostIn(marks + [last]) <==> last.loses || (LostIn(marks) && !last.settles)
  {
    var all := marks + [last];
    if last.loses { assert all[|marks|].loses; }
    if LostIn(marks) && !last.settles {
      var j :| 0 <= j < |marks| && marks[j].loses && forall i :: j < i < |marks| ==> !marks[i].settles;
      assert all[j].loses;
    }
    if j :| 0 <= j < |all| && all[j].loses && forall i :: j < i < |all| ==> !all[i].settles {
      if j < |marks| {
        assert marks[j].loses && !all[|marks|].settles;
        assert forall i :: j < i < |marks| ==> marks[i] == all[i];
      }
    }
  }

  lemma FrontLayouts(l: Layout, ops: seq<Op>, luck: Luck)
    requires Fits(l) && ops != []
    ensures var front, n := ops[..|ops| - 1], |ops| - 1;
            && (forall k :: 0 <= k <= n ==> At(l, ops, luck, k) == At(l, front, luck, k))
            && At(l, ops, luck, n) == RunLayout(l, front, luck)
            && RunLayout(l, ops, luck) == After(RunLayout(l, front, luck), ops[n], luck)
  {
    forall k | 0 <= k < |ops| ensures At(l, ops, luck, k) == At(l, ops[..|ops| - 1], luck, k) {
      AtFront(l, ops, luck, k);
    }
  }

  lemma ThroughFront(l: Layout, ops: seq<Op>, luck: Luck)
    requires Fits(l) && ops != [] && RunsThrough(l, ops, luck)
    ensures var front, n := ops[..|ops| - 1], |ops| - 1;
            RunsThrough(l, front, luck) && Succeeds(RunLayout(l, front, luck), ops[n], luck)
  {
    FrontLayouts(l, ops, luck);
    var front, n := ops[..|ops| - 1], |ops| - 1;
    assert Succeeds(At(l, ops, luck, n), ops[n], luck);
    forall k | 0 <= k < |front| ensures Succeeds(At(l, front, luck, k), front[k], luck) {
      assert Succeeds(At(l, ops, luck, k), ops[k], luck);
    }
  }

  lemma LostFront(l: Layout, ops: seq<Op>, luck: Luck)
    requires Fits(l) && ops != []
    ensures var front := ops[..|ops| - 1];
            var mark := MarkOf(RunLayout(l, front, luck), ops[|ops| - 1], luck);
            Lost(l, ops, luck) <==> mark.loses || (Lost(l, front, luck) && !mark.settles)
  {
    var front := ops[..|ops| - 1];
    LostInFront(Marks(l, front, luck), MarkOf(RunLayout(l, front, luck), ops[|ops| - 1], luck));
  }

  lemma LostNotFull(l: Layout, ops: seq<Op>, luck: Luck)
    requires Fits(l) && Lost(l, ops, luck)
    ensures !Full(RunLayout(l, ops, luck))
  {
    LostFront(l, ops, luck);
  }

  /** A run that starts with the zero in place ends with it exactly if the buffer is not full then and
      no operation lost it for good. */
  lemma {:induction false} EndedExactly(l: Layout, ops: seq<Op>, luck: Luck)
    requires Fits(l) && l.ended && RunsThrough(l, ops, luck)
    ensures var r := RunLayout(l, ops, luck);
            r.ended <==> !Full(r) && !Lost(l, ops, luck)
    decreases |ops|
  {
    if ops != [] {
      var front, op := ops[..|ops| - 1], ops[|ops| - 1];
      ThroughFront(l, ops, luck);
      EndedExactly(l, front, luck);
      LostFront(l, ops, luck);
      EndedStep(RunLayout(l, front, luck), op, luck, Lost(l, front, luck), Lost(l, ops, luck)) by {
        if Lost(l, front, luck) { LostNotFull(l, front, luck); }
      }
    }
  }

  lemma EndedStep(m: Layout, op: Op, luck: Luck, lostBefore: bool, lost: bool)
    requires Fits(m) && Succeeds(m, op, luck)
    requires m.ended <==> !Full(m) && !lostBefore
    requires lostBefore ==> !Full(m)
    requires lost <==> MarkOf(m, op, luck).loses || (lostBefore && !MarkOf(m, op, luck).settles)
    ensures var r := After(m, op, luck); r.ended <==> !Full(r) && !lost
  {
    StepEnded(m, op, luck);
  }

  /** Some bytes produced directly fill the buffer to the last byte. */
  predicate Fills(l: Layout, op: Op) { op.Produce? && l.use + |op.s| == l.size }

  lemma {:induction false} FullByFilling(l: Layout, ops: seq<Op>, luck: Luck, k: nat)
    requires Fits(l) && !Full(l) && RunsThrough(l, ops, luck) && k <= |ops|
    requires forall i :: 0 <= i < k ==> !Fills(At(l, ops, luck, i), ops[i])
    ensures !Full(At(l, ops, luck, k))
  {
    if k > 0 {
      FullByFilling(l, ops, luck, k - 1);
      AtFront(l, ops, luck, k - 1);
      StepFills(At(l, ops, luck, k - 1), ops[k - 1], luck);
    }
  }

  lemma {:induction false} NeverFullEnded(l: Layout, ops: seq<Op>, luck: Luck)
    requires Fits(l) && l.ended && RunsThrough(l, ops, luck) && !EverFull(l, ops, luck)
    ensures RunLayout(l, ops, luck).ended
    decreases |ops|
  {
    assert ops[..|ops|] == ops && At(l, ops, luck, |ops|) == RunLayout(l, ops, luck);
    if ops != [] {
      var front := ops[..|ops| - 1];
      FrontLayouts(l, ops, luck);
      ThroughFront(l, ops, luck);
      assert forall k :: 0 < k <= |front| ==> !Full(At(l, front, luck, k));
      NeverFullEnded(l, front, luck);
      StepEnded(RunLayout(l, front, luck), ops[|ops| - 1], luck);
    }
  }

  ghost predicate SomeFills(l: Layout, ops: seq<Op>, luck: Luck)
    requires Fits(l)
  {
    exists k :: 0 <= k < |ops| && Fills(At(l, ops, luck, k), ops[k])
  }

  /** A buffer ever is full exactly if some operation fills it. */
  lemma FilledExactly(l: Layout, ops: seq<Op>, luck: Luck)
    requires Fits(l) && !Full(l) && RunsThrough(l, ops, luck)
    ensures EverFull(l, ops, luck) <==> SomeFills(l, ops, luck)
  {
    if k :| 0 <= k < |ops| && Fills(At(l, ops, luck, k), ops[k]) {
      AtFront(l, ops, luck, k);
      assert Full(At(l, ops, luck, k + 1));
    } else {
      forall k | 0 < k <= |ops| ensures !Full(At(l, ops, luck, k)) { FullByFilling(l, ops, luck, k); }
    }
  }

  /** A run goes no further: nothing is left, or the next operation is not admitted or meets an error. */
  predicate Stops(l: Layout, rest: seq<Op>, luck: Luck, error: bool)
    requires Fits(l)
  {
    if rest == [] then !error
    else !Succeeds(l, rest[0], luck) && (error <==> Admits(l, rest[0]))
  }

  lemma FrontSlices(ops: seq<Op>, done: nat)
    requires ops != [] && done < |ops|
    ensures var front := ops[..|ops| - 1];
            && front[..done] == ops[..done] && front + [ops[|ops| - 1]] == ops && ops[..|ops|] == ops
            && ops[|ops|..] == [] && (done < |front| ==> front[done..][0] == ops[done])
            && (done == |front| ==> front[done..] == [] && ops[done..] == [ops[done]])
  {
  }

  lemma StopsByHead(l: Layout, a: seq<Op>, b: seq<Op>, luck: Luck, error: bool)
    requires Fits(l) && a != [] && b != [] && a[0] == b[0]
    ensures Stops(l, a, luck, error) <==> Stops(l, b, luck, error)
  {
  }

  lemma FrontStops(l: Layout, ops: seq<Op>, luck: Luck, done: nat, error: bool)
    requires Fits(l) && ops != [] && done < |ops|
    requires Stops(l, ops[..|ops| - 1][done..], luck, error)
    ensures done < |ops| - 1 ==> Stops(l, ops[done..], luck, error)
    ensures done == |ops| - 1 ==> !error
  {
    FrontSlices(ops, done);
    if done < |ops| - 1 { StopsByHead(l, ops[..|ops| - 1][done..], ops[done..], luck, error); }
  }

  lemma {:induction false} RunEnded(l: Layout, ops: seq<Op>, luck: Luck)
    requires Fits(l) && l.ended && RunsThrough(l, ops, luck)
    ensures var r := RunLayout(l, ops, luck);
            && (r.ended <==> r.use < r.size && !Lost(l, ops, luck))
            && (!EverFull(l, ops, luck) ==> r.ended)
            && (!SomeFills(l, ops, luck) ==> r.ended)
  {
    EndedExactly(l, ops, luck);
    FilledExactly(l, ops, luck);
    if !EverFull(l, ops, luck) { NeverFullEnded(l, ops, luck); }
  }

  lemma NoneFills(l: Layout, ops: seq<Op>, luck: Luck)
    requires Fits(l) && forall op :: op in ops ==> !op.Produce?
    ensures !SomeFills(l, ops, luck)
  {
  }

  lemma RestOf(ops: seq<Op>, done: nat)
    requires done <= |ops|
    ensures if done < |ops| then ops[done..] != [] && ops[done..][0] == ops[done] else ops[..done] == ops
  {
  }

  /** What is known when a run has come to its end, or stopped at operation `done`. */
  lemma RunOutcome(l: Layout, ops: seq<Op>, luck: Luck, done: nat, error: bool)
    requires Fits(l) && done <= |ops| && RunsThrough(l, ops[..done], luck)
    requires Stops(RunLayout(l, ops[..done], luck), ops[done..], luck, error)
    ensures done < |ops| <==> !RunsThrough(l, ops, luck)
  {
    RestOf(ops, done);
    if done < |ops| { StoppedEarly(l, ops, luck, done); }
  }

  /** What undoes a run is admitted wherever the run has led. */
  lemma {:induction false} UndosRun(l: Layout, undos: seq<Op>, luck: Luck)
    requires Fits(l) && !l.error && (undos != [] ==> l.scheme != Immutable)
    requires forall k :: 0 <= k < |undos| ==> undos[k].Shrink? || (undos[k].Erase? && undos[k].n > 0)
    ensures RunsThrough(l, undos, luck)
    ensures var r := RunLayout(l, undos, luck); !r.error && r.scheme == l.scheme
    decreases |undos|
  {
    if undos != [] {
      var front, op := undos[..|undos| - 1], undos[|undos| - 1];
      UndosRun(l, front, luck);
      RunStep(l, front, op, luck);
      assert front + [op] == undos;
    }
  }

  lemma {:induction false} UndoKinds(ops: seq<Op>)
    requires forall k :: 0 <= k < |ops| ==> !Removes(ops[k])
    ensures |UndoAll(ops)| == |ops|
    ensures forall k :: 0 <= k < |ops| ==> var op := UndoAll(ops)[k]; op.Shrink? || (op.Erase? && op.n > 0)
    decreases |ops|
  {
    if ops != [] { UndoKinds(ops[..|ops| - 1]); }
  }

  // ----- memory

  lemma Tail(a: string, from: nat, to: nat, k: nat)
    requires from + k <= to <= |a|
    ensures a[from..to][k..] == a[from + k..to]
  {
  }

  lemma SameRange(a: string, b: string, keep: nat, from: nat, n: nat)
    requires from + n <= keep <= |a| && keep <= |b| && a[..keep] == b[..keep]
    ensures a[from..from + n] == b[from..from + n]
    ensures from + n < keep ==> a[from + n] == b[from + n]
  {
    assert forall k :: 0 <= k < keep ==> a[k] == a[..keep][k] && b[k] == b[..keep][k];
  }

  lemma Joined(a: string, i: nat, j: nat, k: nat)
    requires i <= j <= k <= |a|
    ensures a[i..j] + a[j..k] == a[i..k]
  {
  }

  /** memmove: the two ranges may overlap. */
  method Move(a: array<char>, to: nat, from: nat, n: nat)
    requires to + n <= a.Length && from + n <= a.Length
    modifies a
    ensures forall k :: 0 <= k < a.Length ==> a[k] == if to <= k < to + n then old(a[from + (k - to)]) else old(a[k])
    ensures a[to..to + n] == old(a[from..from + n])
  {
    forall k | to <= k < to + n { a[k] := a[from + (k - to)]; }
  }

  method Write(a: array<char>, to: nat, s: string)
    requires to + |s| <= a.Length
    modifies a
    ensures forall k :: 0 <= k < a.Length ==> a[k] == if to <= k < to + |s| then s[k - to] else old(a[k])
    ensures a[to..to + |s|] == s
  {
    forall k | to <= k < to + |s| { a[k] := s[k - to]; }
  }

  /** `s` written just before `t`. */
  method WriteBefore(a: array<char>, to: nat, s: string, ghost t: string)
    requires to + |s| + |t| <= a.Length && a[to + |s|..to + |s| + |t|] == t
    modifies a
    ensures a[to..to + |s| + |t|] == s + t
    ensures forall k :: to + |s| + |t| <= k < a.Length ==> a[k] == old(a[k])
  {
    Write(a, to, s);
    assert a[to + |s|..to + |s| + |t|] == t;
    Joined(a[..], to, to + |s|, to + |s| + |t|);
  }

  /** realloc: the first `keep` bytes are kept, behind them is whatever the memory holds. */
  method Realloc(a: array?<char>, keep: nat, n: nat, luck: nat -> char) returns (b: array<char>)
    requires keep <= n && (if a == null then keep == 0 else keep <= a.Length)
    ensures fresh(b) && b.Length == n
    ensures a != null ==> b[..keep] == a[..keep]
    ensures forall k :: keep <= k < n ==> b[k] == luck(k)
  {
    b := new char[n];
    forall k | keep <= k < n { b[k] := luck(k); }
    if a != null {
      forall k | 0 <= k < keep { b[k] := a[k]; }
    }
  }

  /** The doubling loop of xmlBufResize; it gives up rather than overflow. */
  method Double(start: nat, size: nat) returns (ok: bool, n: nat)
    requires 0 < start <= UINT_MAX
    ensures ok ==> size <= n <= UINT_MAX && start <= n && (n == start || n < 2 * size)
    ensures !ok ==> size > INT_MAX
    ensures Doubled(start, size) == if ok then Some(n) else None
  {
    n := start;
    while size > n
      invariant Doubled(n, size) == Doubled(start, size)
      invariant start <= n <= UINT_MAX && (n == start || n < 2 * size)
    {
      if n > UINT_MAX / 2 {
        return false, n;
      }
      n := 2 * n;
    }
    ok := true;
  }

  class XmlBuf {
    var block: array?<char>   // the allocation; null for a NULL content
    var io: bool              // contentIO is set and points at the start of the allocation
    var offset: nat           // how far content is into the allocation
    var use: nat
    var size: nat
    var compatUse: nat
    var compatSize: nat
    var scheme: Scheme
    var error: bool
    var allocs: nat           // how often realloc made the allocation longer
    const luck: Luck          // what fresh memory holds

    ghost predicate Compat()
      reads `use, `size, `compatUse, `compatSize
    {
      compatUse == Capped(use) && compatSize == Capped(size)
    }

    predicate Shape()
      reads `block, `io, `offset, `use, `size, `scheme
    {
      && use <= size
      && (if block == null then offset == 0 && size == 0 && !io else 0 < offset + size <= block.Length)
      && (io ==> scheme == IO)
      && (offset > 0 ==> io || scheme == Immutable)
    }

    ghost predicate Valid()
      reads this
    {
      Shape() && Compat()
    }

    /** The bytes of the buffer. */
    ghost function Contents(): (s: string)
      reads `block, `io, `offset, `use, `size, `scheme, block
      requires Shape()
      ensures |s| == use
    {
      if block == null then "" else block[offset..offset + use]
    }

    /** There is room behind the bytes, and it starts with the terminating zero. */
    predicate Terminated()
      reads `block, `io, `offset, `use, `size, `scheme, block
      requires Shape()
    {
      use < size && block[offset + use] == '\0'
    }

    function View(): (l: Layout)
      reads `block, `io, `offset, `use, `size, `scheme, `error, `allocs, block
      requires Shape()
      ensures Fits(l)
    {
      Layout(block == null, io, scheme, offset, use, size, error, Terminated(), allocs)
    }

    /** xmlBufCreateSize */
    constructor (n: nat, scheme: Scheme, luck: Luck)
      ensures this.luck == luck && allocs == 0 && size == (if n > 0 then n + 2 else 0)
      ensures Valid() && (block != null ==> fresh(block)) && Contents() == "" && !error && this.scheme == scheme && !io
      ensures n > 0 ==> Terminated()
    {
      var s := if n > 0 then n + 2 else 0;
      var b: array?<char> := null;
      if s > 0 {
        var fresh_ := new char[s];
        fresh_[0] := '\0';
        b := fresh_;
      }
      block, io, offset, use, size, error := b, false, 0, 0, s, false;
      this.scheme := scheme;
      this.luck := luck;
      allocs := 0;
      compatUse, compatSize := 0, Capped(s);
    }

    /** UPDATE_COMPAT */
    method UpdateCompat()
      requires Shape()
      modifies this`compatUse, this`compatSize
      ensures Valid() && View() == old(View()) && Contents() == old(Contents())
    {
      if size < INT_MAX { compatSize := size; } else { compatSize := INT_MAX; }
      if use < INT_MAX { compatUse := use; } else { compatUse := INT_MAX; }
    }

    /** CHECK_COMPAT: it changes nothing as long as every operation ended with UPDATE_COMPAT. */
    method CheckCompat()
      requires Valid()
      modifies this`use, this`size
      ensures use == old(use) && size == old(size)
      ensures Valid() && View() == old(View()) && Contents() == old(Contents())
    {
      var s: int := if size != compatSize && compatSize < INT_MAX then compatSize else size;
      var u: int := if use != compatUse && compatUse < INT_MAX then compatUse else use;
      size, use := s, u;
    }

    /** xmlBufSetAllocationScheme: the switch to IO is made although -1 is returned. */
    method SetScheme(s: Scheme) returns (ret: int)
      requires Valid()
      modifies this`scheme, this`io
      ensures Valid() && Contents() == old(Contents())
      ensures ret == 0 <==> !error && s != IO && old(scheme) != IO && old(scheme) != Immutable
      ensures scheme == if error || old(scheme) == IO || old(scheme) == Immutable then old(scheme) else s
      ensures old(Terminated()) ==> Terminated()
    {
      if error || scheme == Immutable || scheme == IO {
        return -1;
      }
      scheme := s;
      if s != IO {
        return 0;
      }
      io := block != null;
      ret := -1;
    }

    /** The zero behind the bytes. */
    method Terminate()
      requires Shape() && use < size
      modifies block
      ensures Shape() && Contents() == old(Contents()) && View() == old(View()).(ended := true)
    {
      block[offset + use] := '\0';
    }

    /** xmlBufEmpty: an IO buffer also gets its head room back. */
    method Clear()
      requires Valid() && scheme != Immutable
      modifies this`use, this`size, this`offset, this`compatUse, this`compatSize, block
      ensures Valid()
      ensures Contents() == if error then old(Contents()) else ""
      ensures !error && block != null ==> Terminated() && offset == 0
      ensures size - old(size) == old(offset) - offset
      ensures View() == After(old(View()), Op.Empty, luck)
    {
      if error || block == null {
        return;
      }
      CheckCompat();
      use := 0;
      if io {
        size := size + offset;
        offset := 0;
      }
      block[0] := '\0';
      UpdateCompat();
    }

    /** xmlBufShrink: drop bytes in front.  An IO buffer only moves its content pointer, until the head
        room has grown as large as the rest. */
    method Shrink(len: nat) returns (ret: nat)
      requires Valid()
      modifies this`use, this`size, this`offset, this`compatUse, this`compatSize, block
      ensures Valid()
      ensures ret == if error || len > old(use) then 0 else len
      ensures Contents() == if error then old(Contents()) else Apply(old(Contents()), Op.Shrink(len))
      ensures old(Terminated()) ==> Terminated()
      ensures io && 0 < ret ==> offset < size
      ensures View() == After(old(View()), Op.Shrink(len), luck)
    {
      if error {
        return 0;
      }
      CheckCompat();
      if len == 0 || len > use {
        return 0;
      }
      Drop(len);
      UpdateCompat();
      ret := len;
    }

    method Drop(len: nat)
      requires Shape() && 0 < len <= use
      modifies this`use, this`size, this`offset, block
      ensures Shape() && Contents() == old(Contents())[len..]
      ensures io ==> offset < size
      ensures !error ==> View() == After(old(View()), Op.Shrink(len), luck)
    {
      if scheme == Immutable || io {
        Advance(len);
      } else {
        MoveDown(len);
      }
    }

    /** The bytes behind the first `len` moved to the front. */
    method MoveDown(len: nat)
      requires Shape() && offset == 0 && 0 < len <= use
      modifies this`use, block
      ensures Shape() && Contents() == old(Contents())[len..] && Terminated()
      ensures View() == old(View()).(use := use, ended := true)
    {
      Tail(block[..], 0, use, len);
      use := use - len;
      Move(block, 0, len, use);
      block[use] := '\0';
    }

    /** The content pointer moved over the first `len` bytes, or all of it moved back. */
    method Advance(len: nat)
      requires Shape() && (scheme == Immutable || io) && 0 < len <= use
      modifies this`use, this`size, this`offset, block
      ensures Shape() && Contents() == old(Contents())[len..]
      ensures io ==> offset < size
      ensures View() == Advanced(old(View()), len)
    {
      Tail(block[..], offset, offset + use, len);
      use := use - len;
      offset := offset + len;
      size := size - len;
      if io && offset >= size {
        MoveBack();
      }
    }

    /** Data moved back to the start of the allocation: the head room becomes spare capacity. */
    method MoveBack()
      requires Shape() && 0 < offset
      modifies this`size, this`offset, block
      ensures Shape() && offset == 0 && size == old(size) + old(offset)
      ensures Contents() == old(Contents()) && Terminated()
      ensures View() == MovedBack(old(View()))
    {
      Move(block, 0, offset, use);
      size := size + offset;
      offset := 0;
      block[use] := '\0';
    }

    /** xmlBufGrowInternal: at least `len` free bytes and one more. */
    method GrowInternal(len: nat) returns (ret: nat)
      requires Valid()
      modifies `block, `use, `size, `allocs, `compatUse, `compatSize
      ensures Valid() && use == old(use) && Contents() == old(Contents())
      ensures block == old(block) || fresh(block)
      ensures if error || scheme == Immutable then ret == 0 && size == old(size) else ret == size - use > len
      ensures size == old(size) || size == 2 * old(size) || size == use + len + 100
      ensures old(Terminated()) ==> Terminated()
      ensures View() == GrownBy(old(View()), len, luck)
    {
      if error {
        return 0;
      }
      CheckCompat();
      if scheme == Immutable {
        return 0;
      }
      if use + len < size {
        return size - use;
      }
      var n := if size > len then size * 2 else use + len + 100;
      GrowTo(n);
      UpdateCompat();
      ret := size - use;
    }

    /** xmlBufGrow: nothing is asked for, nothing is done. */
    method Grow(len: nat) returns (ret: int)
      requires Valid()
      modifies `block, `use, `size, `allocs, `compatUse, `compatSize
      ensures Valid() && Contents() == old(Contents())
      ensures block == old(block) || fresh(block)
      ensures len > 0 ==> ret == if error then -1 else if scheme == Immutable then 0 else size - use
      ensures len > 0 && !error && scheme != Immutable ==> ret > len
      ensures len == 0 ==> ret == 0
      ensures View() == After(old(View()), Op.Grow(len), luck)
    {
      if len == 0 {
        return 0;
      }
      var made := GrowInternal(len);
      ret := if error then -1 else made;
    }

    /** xmlBufInflate */
    method Inflate(len: nat) returns (ret: int)
      requires Valid()
      modifies `block, `use, `size, `allocs, `compatUse, `compatSize
      ensures Valid() && Contents() == old(Contents())
      ensures block == old(block) || fresh(block)
      ensures ret == if error then -1 else 0
      ensures ret == 0 && scheme != Immutable ==> size - use > old(size) + len
      ensures View() == After(old(View()), Op.Inflate(len), luck)
    {
      assert After(View(), Op.Inflate(len), luck) == if error then View() else GrownBy(View(), len + size, luck);
      var _ := GrowInternal(len + size);
      ret := if error then -1 else 0;
    }

    /** The size xmlBufResize aims at; `ok` fails if no 32-bit size is large enough. */
    method NewSize(n: nat) returns (ok: bool, newSize: nat)
      requires Shape() && size <= n <= UINT_MAX - 10 && size <= INT_MAX && scheme != Immutable
      requires block == null && scheme == Hybrid ==> n > 0
      ensures ok ==> n <= newSize <= UINT_MAX && newSize > 0
      ensures ok && (scheme == DoubleIt || scheme == IO) && size > 0 ==> newSize >= 2 * size
      ensures ok && newSize > n + 10 ==> newSize == 2 * size || newSize < 2 * n
      ensures !ok ==> n > INT_MAX
      ensures Aim(View(), n) == if ok then Some(newSize) else None
    {
      match scheme
      case IO | DoubleIt =>
        ok, newSize := Double(if size > 0 then 2 * size else n + 10, n);
      case Exact =>
        ok, newSize := true, n + 10;
      case Hybrid =>
        if use < BASE_BUFFER_SIZE {
          ok, newSize := true, n;
        } else {
          ok, newSize := Double(2 * size, n);
        }
    }

    /** xmlBufResize: room for `n` bytes in all, the bytes there untouched. */
    method Resize(n: nat) returns (ret: bool)
      requires Valid() && n <= UINT_MAX - 10 && size <= INT_MAX
      requires block == null && scheme == Hybrid ==> n > 0
      modifies `block, `offset, `use, `size, `allocs, `compatUse, `compatSize, `error, block
      ensures Valid() && Contents() == old(Contents()) && use == old(use)
      ensures block == old(block) || fresh(block)
      ensures ret ==> size >= n && block != null && error == old(error)
      ensures !ret <==> old(error) || scheme == Immutable || (error && n > INT_MAX)
      ensures old(Terminated()) ==> Terminated()
      ensures View() == Resized(old(View()), n, luck)
    {
      if error {
        return false;
      }
      CheckCompat();
      if scheme == Immutable {
        return false;
      }
      if n < size {
        return true;
      }
      ret := Enlarge(n);
    }

    /** A new size is chosen and the allocation made to fit it. */
    method Enlarge(n: nat) returns (ret: bool)
      requires Valid() && !error && scheme != Immutable && size <= n <= UINT_MAX - 10 && size <= INT_MAX
      requires block == null && scheme == Hybrid ==> n > 0
      modifies `block, `offset, `size, `allocs, `compatUse, `compatSize, `error, block
      ensures Valid() && Contents() == old(Contents())
      ensures block == old(block) || fresh(block)
      ensures if ret then size >= n && block != null && !error else error && n > INT_MAX
      ensures View() == Settled(old(View()), Aim(old(View()), n), luck)
    {
      var ok, newSize := NewSize(n);
      if ok {
        Refit(newSize);
      } else {
        RaiseError();
      }
      ret := ok;
    }

    method Refit(newSize: nat)
      requires Valid() && size <= newSize && 0 < newSize && scheme != Immutable && (io ==> use < newSize)
      modifies `block, `size, `offset, `allocs, `compatUse, `compatSize, block
      ensures Valid() && block != null && size == newSize && Contents() == old(Contents())
      ensures block == old(block) || fresh(block)
      ensures View() == Refitted(old(View()), newSize, luck)
    {
      Reallocate(newSize);
      UpdateCompat();
    }

    method RaiseError()
      requires Valid()
      modifies `error
      ensures Valid() && error && Contents() == old(Contents()) && View() == old(View()).(error := true)
    {
      error := true;
    }

    /** Room for `newSize` bytes from the content pointer on. */
    method Reallocate(newSize: nat)
      requires Shape() && size <= newSize && 0 < newSize && scheme != Immutable && (io ==> use < newSize)
      modifies `block, `size, `offset, `allocs, block
      ensures Shape() && block != null && size == newSize && Contents() == old(Contents())
      ensures block == old(block) || fresh(block)
      ensures View() == Refitted(old(View()), newSize, luck)
    {
      if io && offset > newSize {
        MoveBack();
        size := newSize;
      } else if !io && block != null && size - use >= 100 {
        CopyTo(newSize);
      } else {
        GrowTo(newSize);
      }
    }

    /** A longer allocation with everything in it kept. */
    method GrowTo(newSize: nat)
      requires Shape() && size <= newSize && 0 < newSize
      modifies `block, `size, `allocs
      ensures Shape() && fresh(block) && size == newSize && Contents() == old(Contents())
      ensures View() == Grown(old(View()), newSize, luck)
    {
      var b := Longer(newSize);
      Replace(b, newSize);
      allocs := allocs + 1;
    }

    method Longer(newSize: nat) returns (b: array<char>)
      requires Shape() && size <= newSize && 0 < newSize
      ensures fresh(b) && b.Length == offset + newSize
      ensures block != null ==> b[offset..offset + use] == block[offset..offset + use]
      ensures use < newSize ==>
          b[offset + use] == if use < size then block[offset + use] else luck(allocs, offset + use)
    {
      var number, bytes := allocs, luck;
      b := Realloc(block, offset + size, offset + newSize, (k: nat) => bytes(number, k));
      if block != null {
        SameRange(block[..], b[..], offset + size, offset, use);
      }
    }

    /** An allocation with the same bytes in it takes the place of the old one. */
    method Replace(b: array<char>, newSize: nat)
      requires Shape() && use <= newSize && 0 < newSize && b.Length == offset + newSize
      requires block != null ==> b[offset..offset + use] == block[offset..offset + use]
      modifies `block, `size
      ensures block == b && size == newSize && Shape() && Contents() == old(Contents())
      ensures View() == old(View()).(blank := false, size := newSize, ended := Terminated())
    {
      block, size := b, newSize;
    }

    /** A new allocation with only the bytes in use copied. */
    method CopyTo(newSize: nat)
      requires Shape() && block != null && offset == 0 && use < newSize && size <= newSize
      modifies `block, `size
      ensures Shape() && fresh(block) && size == newSize && Contents() == old(Contents()) && Terminated()
    {
      var b := new char[newSize];
      forall k | 0 <= k < use { b[k] := block[k]; }
      b[use] := '\0';
      Replace(b, newSize);
    }

    /** Room for `extra` more bytes and two to spare, as xmlBufAdd and xmlBufAddHead ask for it. */
    method MakeRoom(extra: nat) returns (ok: bool)
      requires Valid() && !error && scheme != Immutable && use + extra + 2 <= UINT_MAX - 10 && size <= INT_MAX
      modifies `block, `offset, `use, `size, `allocs, `compatUse, `compatSize, `error, block
      ensures Valid() && Contents() == old(Contents()) && use == old(use)
      ensures block == old(block) || fresh(block)
      ensures error <==> !ok
      ensures ok ==> block != null && use + extra + 2 <= size
      ensures !ok ==> use + extra + 2 > INT_MAX
      ensures old(Terminated()) ==> Terminated()
      ensures View() == Room(old(View()), extra, luck)
    {
      ok := true;
      var needSize := use + extra + 2;
      if needSize > size {
        ok := Resize(needSize);
      }
    }

    method PutBehind(s: string)
      requires Shape() && s != "" && block != null && use + |s| < size
      modifies `use, `compatUse, `compatSize, block
      ensures Valid() && Contents() == old(Contents()) + s && Terminated()
      ensures View() == old(View()).(use := old(use) + |s|, ended := true)
    {
      Deposit(s);
      Lengthen(|s|);
      Terminate();
      UpdateCompat();
    }

    method PutInFront(s: string)
      requires Shape() && block != null && use + |s| < size
      modifies `use, `compatUse, `compatSize, block
      ensures Valid() && Contents() == s + old(Contents()) && Terminated()
      ensures View() == old(View()).(use := old(use) + |s|, ended := true)
    {
      ghost var was := Contents();
      Move(block, offset + |s|, offset, use);
      WriteBefore(block, offset, s, was);
      use := use + |s|;
      block[offset + use] := '\0';
      UpdateCompat();
    }

    /** xmlBufAdd; 2 is XML_ERR_NO_MEMORY. */
    method Add(s: string) returns (ret: int)
      requires Valid() && use + |s| + 2 <= UINT_MAX - 10 && size <= INT_MAX
      modifies `block, `offset, `use, `size, `allocs, `compatUse, `compatSize, `error, block
      ensures Valid()
      ensures block == old(block) || fresh(block)
      ensures Contents() == if ret == 0 then Apply(old(Contents()), Op.Add(s)) else old(Contents())
      ensures ret == -1 <==> old(error) || scheme == Immutable
      ensures ret == -1 || ret == 0 || (ret == 2 && error && use + |s| + 2 > INT_MAX)
      ensures ret <= 0 ==> error == old(error)
      ensures (ret == 0 && s != "") || old(Terminated()) ==> Terminated()
      ensures scheme != Immutable ==> View() == After(old(View()), Op.Add(s), luck)
    {
      if error {
        return -1;
      }
      CheckCompat();
      if scheme == Immutable {
        return -1;
      }
      if s == "" {
        return 0;
      }
      ret := Append(s);
    }

    method Append(s: string) returns (ret: int)
      requires Valid() && !error && scheme != Immutable && s != ""
      requires use + |s| + 2 <= UINT_MAX - 10 && size <= INT_MAX
      modifies `block, `offset, `use, `size, `allocs, `compatUse, `compatSize, `error, block
      ensures Valid()
      ensures block == old(block) || fresh(block)
      ensures Contents() == if ret == 0 then old(Contents()) + s else old(Contents())
      ensures ret == (if error then 2 else 0) && (error ==> use + |s| + 2 > INT_MAX)
      ensures View() == Extended(old(View()), |s|, luck)
    {
      var ok := MakeRoom(|s|);
      if !ok {
        return 2;
      }
      PutBehind(s);
      ret := 0;
    }

    method Prepend(s: string) returns (ret: int)
      requires Valid() && !error && scheme != Immutable && s != ""
      requires use + |s| + 2 <= UINT_MAX - 10 && size <= INT_MAX
      modifies `block, `offset, `use, `size, `allocs, `compatUse, `compatSize, `error, block
      ensures Valid()
      ensures block == old(block) || fresh(block)
      ensures Contents() == if ret == 0 then s + old(Contents()) else old(Contents())
      ensures ret == (if error then 2 else 0) && (error ==> use + |s| + 2 > INT_MAX)
      ensures View() == Extended(old(View()), |s|, luck)
    {
      var ok := MakeRoom(|s|);
      if !ok {
        return 2;
      }
      PutInFront(s);
      ret := 0;
    }

    /** xmlBufAddHead: head room is used when there is more than enough of it. */
    method AddHead(s: string) returns (ret: int)
      requires Valid() && use + |s| + 2 <= UINT_MAX - 10 && size <= INT_MAX
      modifies `block, `offset, `use, `size, `allocs, `compatUse, `compatSize, `error, block
      ensures Valid()
      ensures block == old(block) || fresh(block)
      ensures Contents() == if ret == 0 then Apply(old(Contents()), Op.AddHead(s)) else old(Contents())
      ensures ret == -1 <==> old(error) || scheme == Immutable
      ensures ret == -1 || ret == 0 || (ret == 2 && error && use + |s| + 2 > INT_MAX)
      ensures ret <= 0 ==> error == old(error)
      ensures old(Terminated()) ==> Terminated()
      ensures scheme != Immutable ==> View() == After(old(View()), Op.AddHead(s), luck)
    {
      if error {
        return -1;
      }
      CheckCompat();
      if scheme == Immutable {
        return -1;
      }
      if s == "" {
        return 0;
      }
      if io && offset > |s| {
        TakeHeadRoom(s);
        return 0;
      }
      ret := Prepend(s);
    }

    /** The bytes put into the head room, which shrinks by as much. */
    method TakeHeadRoom(s: string)
      requires Shape() && io && offset > |s|
      modifies `offset, `use, `size, `compatUse, `compatSize, block
      ensures Valid() && Contents() == s + old(Contents())
      ensures View() == old(View()).(offset := offset, use := use, size := size)
      ensures offset == old(offset) - |s| && use == old(use) + |s| && size == old(size) + |s|
    {
      ghost var was := Contents();
      offset := offset - |s|;
      WriteBefore(block, offset, s, was);
      use := use + |s|;
      size := size + |s|;
      UpdateCompat();
    }

    /** xmlBufAddLen: bytes already written behind the end become part of the buffer; -1 is also
        returned when they fill it to the last byte, although they are taken then. */
    method AddLen(len: nat) returns (ret: int)
      requires Valid() && scheme != Immutable
      modifies this`use, this`size, this`compatUse, this`compatSize, block
      ensures Valid() && size == old(size)
      ensures error || len > size - old(use) ==> ret == -1 && Contents() == old(Contents())
      ensures !error && 0 < len <= size - old(use) ==>
                && Contents() == old(Contents()) + old(block[offset + use..offset + use + len])
                && ret == if use < size then 0 else -1
      ensures ret == 0 ==> Terminated()
      ensures !error && len <= size - old(use) ==> View() == old(View()).(use := use, ended := use < size)
    {
      if error {
        return -1;
      }
      CheckCompat();
      if len > size - use {
        return -1;
      }
      Take(len);
      ret := if size > use then 0 else -1;
    }

    method Lengthen(len: nat)
      requires Shape() && use + len <= size
      modifies `use
      ensures Shape() && use == old(use) + len
      ensures Contents() == old(Contents()) + if len > 0 then block[offset + old(use)..offset + use] else ""
      ensures View() == old(View()).(use := use, ended := Terminated())
    {
      if len > 0 { Joined(block[..], offset, offset + use, offset + use + len); }
      use := use + len;
    }

    /** The end moved behind the `len` bytes, with a zero after it if there is room. */
    method Take(len: nat)
      requires Shape() && use + len <= size
      modifies `use, `compatUse, `compatSize, block
      ensures Valid() && use == old(use) + len
      ensures len > 0 ==> Contents() == old(Contents()) + old(block[offset + use..offset + use + len])
      ensures len == 0 ==> Contents() == old(Contents())
      ensures use < size ==> Terminated()
      ensures View() == old(View()).(use := use, ended := use < size)
    {
      Lengthen(len);
      UpdateCompat();
      if size > use {
        Terminate();
      }
    }

    /** xmlBufErase: drop bytes at the end.  Erasing nothing from a buffer filled to the last byte would
        write past it. */
    method Erase(len: nat) returns (ret: int)
      requires Valid() && scheme != Immutable && (!error && len <= use ==> use - len < size)
      modifies this`use, this`size, this`compatUse, this`compatSize, block
      ensures Valid() && size == old(size)
      ensures ret == if error || len > old(use) then -1 else 0
      ensures Contents() == if ret == 0 then Apply(old(Contents()), Op.Erase(len)) else old(Contents())
      ensures ret == 0 || old(Terminated()) ==> Terminated()
      ensures View() == After(old(View()), Op.Erase(len), luck)
    {
      if error {
        return -1;
      }
      CheckCompat();
      if len > use {
        return -1;
      }
      CutOff(len);
      UpdateCompat();
      ret := 0;
    }

    method CutOff(len: nat)
      requires Shape() && len <= use && use - len < size
      modifies `use, block
      ensures Shape() && Contents() == old(Contents())[..old(use) - len]
      ensures View() == old(View()).(use := old(use) - len, ended := true)
    {
      use := use - len;
      block[offset + use] := '\0';
    }

    // ----- runs

    /** One operation does to the bytes what it should, or leaves them alone and raises the error. */
    method Do(op: Op)
      requires Valid() && !error && Admits(View(), op)
      modifies `block, `offset, `use, `size, `allocs, `compatUse, `compatSize, `error, block
      ensures Valid()
      ensures block == old(block) || fresh(block)
      ensures Contents() == if error then old(Contents()) else Apply(old(Contents()), op)
      ensures View() == After(old(View()), op, luck)
    {
      match op
      case Add(s) => var _ := Add(s);
      case AddHead(s) => var _ := AddHead(s);
      case Shrink(n) => var _ := Shrink(n);
      case Grow(n) => var _ := Grow(n);
      case Inflate(n) => var _ := Inflate(n);
      case Resize(n) => var _ := Resize(n);
      case Produce(s) => ProduceBytes(s);
      case Erase(n) => var _ := Erase(n);
      case Empty => Clear();
    }

    /** A caller writes `s` behind the end and reports it. */
    method ProduceBytes(s: string)
      requires Valid() && !error && Admits(View(), Op.Produce(s))
      modifies `use, `size, `compatUse, `compatSize, block
      ensures Valid() && Contents() == old(Contents()) + s
      ensures View() == After(old(View()), Op.Produce(s), luck)
    {
      Deposit(s);
      var _ := AddLen(|s|);
    }

    method Deposit(s: string)
      requires Shape() && s != "" && use + |s| <= size
      modifies block
      ensures Shape() && Contents() == old(Contents()) && block[offset + use..offset + use + |s|] == s
      ensures View() == old(View()).(ended := Terminated())
    {
      Write(block, offset + use, s);
    }

    /** The operation after those that were `done` from the given layout and bytes. */
    method DoNext(op: Op, ghost done: seq<Op>, ghost start: Layout, ghost bytes: string)
      requires Valid() && !error && Admits(View(), op) && Fits(start)
      requires View() == RunLayout(start, done, luck) && RunsThrough(start, done, luck) &&
          Contents() == Run(bytes, done)
      modifies `block, `offset, `use, `size, `allocs, `compatUse, `compatSize, `error, block
      ensures Valid()
      ensures block == old(block) || fresh(block)
      ensures error <==> !Succeeds(old(View()), op, luck)
      ensures error ==> View() == old(View()).(error := true) && Contents() == old(Contents())
      ensures !error ==>
                && View() == RunLayout(start, done + [op], luck) && RunsThrough(start, done + [op], luck)
                && Contents() == Run(bytes, done + [op])
                && (EverFull(start, done + [op], luck) <==> EverFull(start, done, luck) || use == size)
    {
      ghost var was := View();
      Do(op);
      if error {
        ErrorKeepsLayout(was, op, luck);
      } else {
        RunStep(start, done, op, luck);
        assert (done + [op])[..|done|] == done;
      }
    }

    /** The operations one after the other, up to the first that is not admitted or meets an error. */
    method DoAll(ops: seq<Op>) returns (done: nat, filled: bool)
      requires Valid() && !error
      modifies `block, `offset, `use, `size, `allocs, `compatUse, `compatSize, `error, block
      ensures Valid() && (block == old(block) || fresh(block))
      ensures done <= |ops| && Contents() == Run(old(Contents()), ops[..done])
      ensures RunsThrough(old(View()), ops[..done], luck) && (filled <==> EverFull(old(View()), ops[..done], luck))
      ensures View() == RunLayout(old(View()), ops[..done], luck).(error := error)
      ensures Stops(RunLayout(old(View()), ops[..done], luck), ops[done..], luck, error)
      decreases |ops|
    {
      if ops == [] {
        return 0, false;
      }
      ghost var start, bytes := View(), Contents();
      var front, op := ops[..|ops| - 1], ops[|ops| - 1];
      done, filled := DoAll(front);
      FrontSlices(ops, done);
      FrontStops(RunLayout(start, ops[..done], luck), ops, luck, done, error);
      if done == |front| && Admits(View(), op) {
        DoNext(op, front, start, bytes);
        if !error {
          filled := filled || use == size;
          return |ops|, filled;
        }
      }
    }

    /** Any run of operations is that run on the plain bytes, up to the first error or the first
        operation whose demands are not met.  The terminating zero is there at the end exactly if the
        buffer is not full and no operation lost the zero; none does as long as nothing fills the
        buffer to the last byte. */
    method Perform(ops: seq<Op>) returns (done: nat, filled: bool)
      requires Valid() && !error
      modifies `block, `offset, `use, `size, `allocs, `compatUse, `compatSize, `error, block
      ensures Valid() && (block == old(block) || fresh(block))
      ensures done <= |ops| && Contents() == Run(old(Contents()), ops[..done])
      ensures View() == RunLayout(old(View()), ops[..done], luck).(error := error)
      ensures RunsThrough(old(View()), ops[..done], luck) && (done < |ops| <==> !RunsThrough(old(View()), ops, luck))
      ensures Stops(RunLayout(old(View()), ops[..done], luck), ops[done..], luck, error)
      ensures filled <==> EverFull(old(View()), ops[..done], luck)
      ensures old(Terminated()) ==>
                && (Terminated() <==> use < size && !Lost(old(View()), ops[..done], luck))
                && (!filled ==> Terminated())
                && (!SomeFills(old(View()), ops[..done], luck) ==> Terminated())
                && ((forall op :: op in ops ==> !op.Produce?) ==> Terminated())
    {
      ghost var start := View();
      done, filled := DoAll(ops);
      RunOutcome(start, ops, luck, done, error);
      if start.ended { RunEnded(start, ops[..done], luck); }
      if forall op :: op in ops ==> !op.Produce? { NoneFills(start, ops[..done], luck); }
    }

    /** Operations that only add, and their undoing, leave the bytes as they were: whatever has been
        reallocated meanwhile, erasing and shrinking is always admitted. */
    method PerformAndUndo(ops: seq<Op>) returns (done: nat)
      requires Valid() && !error && forall k :: 0 <= k < |ops| ==> !Removes(ops[k])
      modifies `block, `offset, `use, `size, `allocs, `compatUse, `compatSize, `error, block
      ensures Valid() && done <= |ops| && (done < |ops| <==> !RunsThrough(old(View()), ops, luck))
      ensures Contents() == if error then Run(old(Contents()), ops[..done]) else old(Contents())
    {
      ghost var start, bytes := View(), Contents();
      var filled;
      done, filled := Perform(ops);
      if !error {
        assert done > 0 ==> Succeeds(At(start, ops[..done], luck, 0), ops[..done][0], luck);
        UndoThem(ops[..done]);
        AdditionsUndone(bytes, ops[..done]);
      }
    }

    method UndoThem(ops: seq<Op>)
      requires Valid() && !error && (ops != [] ==> scheme != Immutable)
      requires forall k :: 0 <= k < |ops| ==> !Removes(ops[k])
      modifies `block, `offset, `use, `size, `allocs, `compatUse, `compatSize, `error, block
      ensures Valid() && !error && Contents() == Run(old(Contents()), UndoAll(ops))
    {
      var undos := UndoAll(ops);
      UndoKinds(ops);
      UndosRun(View(), undos, luck);
      var done, _ := Perform(undos);
      assert undos[..done] == undos;
    }
  }

  /** The zero lost: bytes produced directly fill a new buffer, and room is made behind them.  What
      terminates them then is what the memory happened to hold. */
  method FillThenGrow(n: nat, scheme: Scheme, s: string, room: nat, luck: Luck) returns (terminated: bool)
    requires 0 < n && |s| == n + 2 && scheme != Immutable && 0 < room
    ensures terminated <==> luck(0, |s|) == '\0'
  {
    var buf := new XmlBuf(n, scheme, luck);
    var l := buf.View();
    buf.Do(Op.Produce(s));
    assert buf.View() == l.(use := |s|, ended := false);
    buf.Do(Op.Grow(room));
    terminated := buf.Terminated();
  }
}
