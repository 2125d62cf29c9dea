/**
 What each call of the thread storage (copy-on-write-noodlez102/tls.c:113-342) answers and changes, byte by byte.
 */
module TlsCalls {
  import opened Bytes
  import opened TlsModel

  /** Every other thread keeps its bytes. */
  predicate OthersKept(l: Library, l': Library, self: int) {
    forall t :: t in l.views.Keys + l'.views.Keys && t != self ==> SameView(l, l', t)
  }

  /** The caller gets `size` zeros if it asks for some and has no storage, and in no other case. */
  lemma CreateAnswers(l: Library, self: int, size: nat)
    ensures var (l', r) := Step(l, Call(self, Create(size)));
      && r == Result(if size > 0 && self !in l.views then 0 else -1, [])
      && (r.code == -1 ==> l' == l)
      && (r.code == 0 ==>
        && self in l'.views && |l'.views[self]| == size && (forall i :: 0 <= i < size ==> l'.views[self][i] == 0)
        && OthersKept(l, l', self) && l'.used == l.used + 1 && l'.lossy == l.lossy)
  {}

  /** The caller loses its storage, and its slot is not free again. */
  lemma DestroyAnswers(l: Library, self: int)
    ensures var (l', r) := Step(l, Call(self, Destroy));
      && r == Result(if self in l.views then 0 else -1, [])
      && (r.code == -1 ==> l' == l)
      && (r.code == 0 ==>
        self !in l'.views && OthersKept(l, l', self) && l'.used == l.used && l'.lossy == l.lossy)
  {}

  /**
   A clone answers 0 exactly for a caller without a storage and a target with one. The caller then has the target's
   bytes if a slot was free; otherwise no thread's bytes change.
   */
  lemma CloneAnswers(l: Library, self: int, target: int)
    ensures var (l', r) := Step(l, Call(self, Clone(target)));
      && r == Result(if self !in l.views && target in l.views then 0 else -1, [])
      && (r.code == -1 ==> l' == l)
      && (r.code == 0 ==>
        && OthersKept(l, l', self)
        && if l.used < MAX_THREAD_COUNT then
             self in l'.views && l'.views[self] == l.views[target] && l'.used == l.used + 1 && l'.lossy == l.lossy
           else
             self !in l'.views && l'.used == l.used && l'.lossy)
  {}

  /** The range lies in the storage, or its end wraps around to a position that does. */
  predicate Accepted(size: nat, offset: nat, length: nat) {
    offset + length <= size || 0x1_0000_0000 <= offset + length <= 0x1_0000_0000 + size
  }

  lemma AcceptedInBounds(size: nat, offset: nat, length: nat)
    requires size < UINT_RANGE && offset < UINT_RANGE && length < UINT_RANGE
    ensures Accepted(size, offset, length) <==> InBounds(size, offset, length)
  {
    if Wraps(offset, length) {
      assert End(offset, length) == offset + length - UINT_RANGE;
    } else {
      assert End(offset, length) == offset + length;
    }
  }

  /** A read answers the bytes of the range, or no bytes where the end wraps, or -1. It changes nothing. */
  lemma ReadAnswers(l: Library, self: int, offset: nat, length: nat)
    requires offset < UINT_RANGE && length < UINT_RANGE && (self in l.views ==> |l.views[self]| < UINT_RANGE)
    ensures var (l', r) := Step(l, Call(self, Read(offset, length)));
      && l' == l
      && r.code == (if self in l.views && Accepted(|l.views[self]|, offset, length) then 0 else -1)
      && |r.data| == (if r.code == 0 && offset + length <= |l.views[self]| then length else 0)
      && forall i :: 0 <= i < |r.data| ==> r.data[i] == l.views[self][offset + i]
  {
    if self in l.views {
      AcceptedInBounds(|l.views[self]|, offset, length);
    }
  }

  /** A write replaces the bytes of the range, or nothing where the end wraps, or answers -1. */
  lemma WriteAnswers(l: Library, self: int, offset: nat, buffer: seq<Byte>)
    requires offset < UINT_RANGE && |buffer| < UINT_RANGE && (self in l.views ==> |l.views[self]| < UINT_RANGE)
    ensures var (l', r) := Step(l, Call(self, Write(offset, buffer)));
      && r == Result(if self in l.views && Accepted(|l.views[self]|, offset, |buffer|) then 0 else -1, [])
      && (r.code == 0 && offset + |buffer| <= |l.views[self]| ==>
        && self in l'.views && |l'.views[self]| == |l.views[self]|
        && (forall i :: 0 <= i < |buffer| ==> l'.views[self][offset + i] == buffer[i])
        && (forall i :: 0 <= i < |l.views[self]| && !(offset <= i < offset + |buffer|) ==>
            l'.views[self][i] == l.views[self][i])
        && OthersKept(l, l', self) && l'.used == l.used && l'.lossy == l.lossy)
      && (r.code == -1 || offset + |buffer| > |l.views[self]| ==> l' == l)
  {
    if self in l.views {
      AcceptedInBounds(|l.views[self]|, offset, |buffer|);
    }
  }

  /** A new storage is readable up to the size that was asked for and no further, and reads as zeros. */
  lemma CreateThenRead(l: Library, self: int, size: nat, offset: nat, length: nat)
    requires 0 < size < UINT_RANGE && self !in l.views && offset + length < UINT_RANGE
    ensures var r := Step(Step(l, Call(self, Create(size))).0, Call(self, Read(offset, length))).1;
      && (r.code == 0 <==> offset + length <= size)
      && (r.code != 0 ==> r == Result(-1, []))
      && (r.code == 0 ==> |r.data| == length && forall i :: 0 <= i < length ==> r.data[i] == 0)
  {
    CreateAnswers(l, self, size);
    ReadAnswers(Step(l, Call(self, Create(size))).0, self, offset, length);
  }

  /** After a destroy the caller can neither read nor write nor destroy again, but create a storage anew. */
  lemma DestroyThenCall(l: Library, self: int, call: Call)
    requires self in l.views && call.self == self && (call.op.Create? ==> call.op.size > 0) && !call.op.Clone?
    ensures var l' := Step(l, Call(self, Destroy)).0;
      Step(l', call).1 == Result(if call.op.Create? then 0 else -1, [])
  {}
}
