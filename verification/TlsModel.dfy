/**
 The abstract thread storage that copy-on-write-noodlez102/tls.c is proved to refine: one private byte sequence per
 thread, and the laws callers rely on.
 */
module TlsModel {
  import opened Bytes

  const MAX_THREAD_COUNT: nat := 128

  /** Offsets, lengths and sizes are unsigned 32-bit numbers; the loops count with signed ones. */
  const UINT_RANGE: nat := 0x1_0000_0000
  const INT_MAX: nat := 0x7fff_ffff

  /**
   The storages by thread, the number of registry slots ever taken (a slot is never free again), and whether a clone
   was ever made with no slot free.
   */
  datatype Library = Library(views: map<int, seq<Byte>>, used: nat, lossy: bool)

  datatype Op =
    | Create(size: nat)
    | Destroy
    | Read(offset: nat, length: nat)
    | Write(offset: nat, buffer: seq<Byte>)
    | Clone(target: int)

  datatype Call = Call(self: int, op: Op)

  datatype Result = Result(code: int, data: seq<Byte>)

  /** -1 marks a free registry slot, 0 one whose storage was destroyed. */
  predicate IsThread(self: int) {
    self != -1 && self != 0
  }

  /** `offset + length` in unsigned arithmetic. */
  function End(offset: nat, length: nat): nat {
    (offset + length) % UINT_RANGE
  }

  /** The bounds check of tls_read and tls_write. */
  predicate InBounds(size: nat, offset: nat, length: nat) {
    End(offset, length) <= size
  }

  predicate Wraps(offset: nat, length: nat) {
    offset + length >= UINT_RANGE
  }

  function CreateStep(l: Library, self: int, size: nat): (Library, Result) {
    if size == 0 || self in l.views then (l, Result(-1, []))
    else (l.(views := l.views[self := Zeros(size)], used := l.used + 1), Result(0, []))
  }

  function DestroyStep(l: Library, self: int): (Library, Result) {
    if self !in l.views then (l, Result(-1, [])) else (l.(views := l.views - {self}), Result(0, []))
  }

  /** When the end wraps, the bounds check may pass, and then no byte is read. */
  function ReadStep(l: Library, self: int, offset: nat, length: nat): (Library, Result) {
    if self !in l.views || !InBounds(|l.views[self]|, offset, length) then (l, Result(-1, []))
    else if Wraps(offset, length) then (l, Result(0, []))
    else
      assert End(offset, length) == offset + length;
      (l, Result(0, l.views[self][offset..offset + length]))
  }

  function Written(l: Library, self: int, offset: nat, buffer: seq<Byte>): Library
    requires self in l.views && offset <= |l.views[self]|
  {
    l.(views := l.views[self := Splice(l.views[self], offset, buffer)])
  }

  lemma NothingWritten(l: Library, self: int, offset: nat, buffer: seq<Byte>)
    requires self in l.views && offset <= |l.views[self]|
    ensures Written(l, self, offset, buffer[..0]) == l
  {
    assert Splice(l.views[self], offset, buffer[..0]) == l.views[self];
    assert Written(l, self, offset, buffer[..0]).views == l.views;
  }

  /** Storing one byte more of a buffer. */
  lemma WriteAdvances(l: Library, self: int, offset: nat, buffer: seq<Byte>, n: nat)
    requires self in l.views && n < |buffer| && offset + |buffer| <= |l.views[self]|
    ensures var l' := Written(l, self, offset, buffer[..n]);
      l'.(views := l'.views[self := SetAt(l'.views[self], offset + n, buffer[n])])
      == Written(l, self, offset, buffer[..n + 1])
  {
    SpliceNext(l.views[self], offset, buffer, n);
    var l' := Written(l, self, offset, buffer[..n]);
    assert l'.views[self := SetAt(l'.views[self], offset + n, buffer[n])]
        == Written(l, self, offset, buffer[..n + 1]).views;
  }

  function WriteStep(l: Library, self: int, offset: nat, buffer: seq<Byte>): (Library, Result) {
    if self !in l.views || !InBounds(|l.views[self]|, offset, |buffer|) then (l, Result(-1, []))
    else if Wraps(offset, |buffer|) then (l, Result(0, []))
    else
      assert End(offset, |buffer|) == offset + |buffer|;
      (Written(l, self, offset, buffer), Result(0, []))
  }

  /** With no free slot a clone still answers 0, but the caller has no storage. */
  function CloneStep(l: Library, self: int, target: int): (Library, Result) {
    if self in l.views || target !in l.views then (l, Result(-1, []))
    else if l.used < MAX_THREAD_COUNT then
      (l.(views := l.views[self := l.views[target]], used := l.used + 1), Result(0, []))
    else (l.(lossy := true), Result(0, []))
  }

  function Step(l: Library, call: Call): (Library, Result) {
    match call.op
    case Create(size) => CreateStep(l, call.self, size)
    case Destroy => DestroyStep(l, call.self)
    case Read(offset, length) => ReadStep(l, call.self, offset, length)
    case Write(offset, buffer) => WriteStep(l, call.self, offset, buffer)
    case Clone(target) => CloneStep(l, call.self, target)
  }

  /** The loops of tls_read and tls_write count the positions up to the end with a signed int. */
  predicate Countable(size: nat, offset: nat, length: nat) {
    && offset < UINT_RANGE && length < UINT_RANGE
    && (InBounds(size, offset, length) && offset < End(offset, length) ==> End(offset, length) <= INT_MAX)
  }

  /** What the code demands of its callers: a free slot for tls_create, and positions that fit the loop counter. */
  predicate Allowed(l: Library, call: Call) {
    && IsThread(call.self)
    && match call.op
       case Create(size) => size < UINT_RANGE && (size > 0 && call.self !in l.views ==> l.used < MAX_THREAD_COUNT)
       case Read(offset, length) => call.self in l.views ==> Countable(|l.views[call.self]|, offset, length)
       case Write(offset, buffer) => call.self in l.views ==> Countable(|l.views[call.self]|, offset, |buffer|)
       case _ => true
  }

  predicate RunAllowed(l: Library, calls: seq<Call>)
    decreases |calls|
  {
    calls == [] || (Allowed(l, calls[0]) && RunAllowed(Step(l, calls[0]).0, calls[1..]))
  }

  /** Where a run of calls ends. */
  function Run(l: Library, calls: seq<Call>): Library
    decreases |calls|
  {
    if calls == [] then l else Run(Step(l, calls[0]).0, calls[1..])
  }

  function RunResults(l: Library, calls: seq<Call>): (r: seq<Result>)
    ensures |r| == |calls|
    decreases |calls|
  {
    if calls == [] then [] else [Step(l, calls[0]).1] + RunResults(Step(l, calls[0]).0, calls[1..])
  }

  // ---------------------------------------------------------------------------------------------
  // Laws
  // ---------------------------------------------------------------------------------------------

  predicate SameView(l: Library, l': Library, t: int) {
    (t in l.views <==> t in l'.views) && (t in l.views ==> l'.views[t] == l.views[t])
  }

  /** In any run, the bytes of a thread that makes no call stay as they are. */
  lemma {:induction false} Isolation(l: Library, calls: seq<Call>, t: int)
    requires forall i :: 0 <= i < |calls| ==> calls[i].self != t
    ensures SameView(l, Run(l, calls), t)
    decreases |calls|
  {
    if calls != [] {
      var l' := Step(l, calls[0]).0;
      assert SameView(l, l', t);
      Isolation(l', calls[1..], t);
    }
  }

  /** After a clone both threads see the same bytes, and whatever one of them then writes the other does not see. */
  lemma CloneIsASnapshot(l: Library, self: int, target: int, calls: seq<Call>)
    requires self !in l.views && target in l.views && l.used < MAX_THREAD_COUNT
    requires forall i :: 0 <= i < |calls| ==> calls[i].self != self
    ensures var l' := Run(CloneStep(l, self, target).0, calls);
      self in l'.views && l'.views[self] == l.views[target]
  {
    Isolation(CloneStep(l, self, target).0, calls, self);
  }

  /** What a thread writes it reads back. */
  lemma ReadBack(l: Library, self: int, offset: nat, buffer: seq<Byte>)
    requires self in l.views && offset + |buffer| <= |l.views[self]| < UINT_RANGE
    ensures WriteStep(l, self, offset, buffer).1.code == 0
    ensures ReadStep(WriteStep(l, self, offset, buffer).0, self, offset, |buffer|).1 == Result(0, buffer)
  {
    assert End(offset, |buffer|) == offset + |buffer|;
    assert Splice(l.views[self], offset, buffer)[offset..offset + |buffer|] == buffer;
  }

  /** The bounds check is right exactly when the end does not wrap, or wraps to a position past the size. */
  lemma BoundsCheckExact(size: nat, offset: nat, length: nat)
    requires size < UINT_RANGE && offset < UINT_RANGE && length < UINT_RANGE
    ensures (InBounds(size, offset, length) <==> offset + length <= size) <==>
      (!Wraps(offset, length) || offset + length - UINT_RANGE > size)
  {
    if Wraps(offset, length) {
      assert End(offset, length) == offset + length - UINT_RANGE;
    } else {
      assert End(offset, length) == offset + length;
    }
  }

  /** A read far outside a storage of one byte that the check lets through. */
  lemma BoundsCheckWraps()
    ensures InBounds(1, UINT_RANGE - 1, 1) && UINT_RANGE - 1 + 1 > 1
    ensures forall l: Library, self: int :: self in l.views && |l.views[self]| == 1 ==>
      ReadStep(l, self, UINT_RANGE - 1, 1).1 == Result(0, [])
  {
    assert End(UINT_RANGE - 1, 1) == 0;
  }

  /** A successful clone gives the caller the target's bytes exactly when a registry slot was free. */
  lemma CloneNeedsASlot(l: Library, self: int, target: int)
    requires CloneStep(l, self, target).1.code == 0
    ensures target in l.views
    ensures (self in CloneStep(l, self, target).0.views && CloneStep(l, self, target).0.views[self] == l.views[target])
      <==> l.used < MAX_THREAD_COUNT
  {}

  // ---------------------------------------------------------------------------------------------
  // A full registry
  // ---------------------------------------------------------------------------------------------

  /** The library before any call. */
  function Unused(): Library {
    Library(map[], 0, false)
  }

  /** Threads `k + 1` to MAX_THREAD_COUNT each create a storage of `size` bytes. */
  function Creates(k: nat, size: nat): (calls: seq<Call>)
    requires k <= MAX_THREAD_COUNT
    ensures |calls| == MAX_THREAD_COUNT - k
    decreases MAX_THREAD_COUNT - k
  {
    if k == MAX_THREAD_COUNT then [] else [Call(k + 1, Create(size))] + Creates(k + 1, size)
  }

  /** The first `k` slots are taken by the threads 1 to `k`. */
  ghost predicate TakenBy(l: Library, k: nat) {
    l.used == k && forall t: int :: t in l.views <==> 1 <= t <= k
  }

  lemma {:induction false} CreatesFill(l: Library, k: nat, size: nat)
    requires k <= MAX_THREAD_COUNT && TakenBy(l, k) && 0 < size < UINT_RANGE
    ensures RunAllowed(l, Creates(k, size))
    ensures TakenBy(Run(l, Creates(k, size)), MAX_THREAD_COUNT)
    decreases MAX_THREAD_COUNT - k
  {
    if k < MAX_THREAD_COUNT {
      var l' := CreateStep(l, k + 1, size).0;
      assert TakenBy(l', k + 1);
      CreatesFill(l', k + 1, size);
      assert Creates(k, size)[1..] == Creates(k + 1, size);
    }
  }

  /**
   The registry fills up in a run the library allows, and then a clone by one more thread answers 0 and leaves that
   thread without a storage.
   */
  lemma RefusedClone(size: nat)
    requires 0 < size < UINT_RANGE
    ensures RunAllowed(Unused(), Creates(0, size))
    ensures var full := Run(Unused(), Creates(0, size)); var call := Call(MAX_THREAD_COUNT + 1, Clone(1));
      && full.used == MAX_THREAD_COUNT && Allowed(full, call)
      && Step(full, call).1.code == 0 && call.self !in Step(full, call).0.views
  {
    CreatesFill(Unused(), 0, size);
  }
}
