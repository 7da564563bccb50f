/** The two Node buffer operations whose clipping the reassemblers rely on. */
module NodeBuffer {
  import opened Prelude

  /** buf.subarray(from, to): both ends are clipped to the buffer. */
  function SubArray(buf: Buffer, from: nat, to: nat): Buffer {
    var lo, hi := Min(from, |buf|), Min(to, |buf|);
    if lo < hi then buf[lo..hi] else []
  }

  /** Bytes src.copy(dst, at) moves: as many as fit. */
  function CopyLength(room: nat, at: nat, src: Buffer): nat {
    if at >= room then 0 else Min(|src|, room - at)
  }

  /** The destination after src.copy(dst, at). */
  function CopyInto(dst: Buffer, at: nat, src: Buffer): (after: Buffer)
    ensures |after| == |dst|
    ensures forall k: nat | k < |dst| ::
              after[k] == if at <= k < at + CopyLength(|dst|, at, src) then src[k - at] else dst[k]
  {
    var n := CopyLength(|dst|, at, src);
    seq(|dst|, k requires 0 <= k < |dst| => if at <= k < at + n then src[k - at] else dst[k])
  }

  /** src.copy(dst, at) on a live buffer. */
  method Copy(dst: array<Byte>, at: nat, src: Buffer)
    modifies dst
    ensures dst[..] == CopyInto(old(dst[..]), at, src)
  {
    var n := CopyLength(dst.Length, at, src);
    for i := 0 to n
      invariant forall k: nat | k < dst.Length :: dst[k] == if at <= k < at + i then src[k - at] else old(dst[k])
    {
      dst[at + i] := src[i];
    }
  }

  // ---------------------------------------------------------------- many copies into one buffer

  datatype Placement = Placement(at: nat, src: Buffer)

  /** A buffer after the given copies, in order. */
  function PlaceAll(buf: Buffer, ps: seq<Placement>): (after: Buffer)
    ensures |after| == |buf|
  {
    if ps == [] then buf
    else
      var last := ps[|ps| - 1];
      CopyInto(PlaceAll(buf, ps[..|ps| - 1]), last.at, last.src)
  }

  /** The copy moves some byte to position k of a buffer of the given size. */
  predicate Covers(p: Placement, size: nat, k: nat) {
    p.at <= k < p.at + CopyLength(size, p.at, p.src)
  }

  ghost predicate Covered(ps: seq<Placement>, size: nat, k: nat) {
    exists i: nat :: i < |ps| && Covers(ps[i], size, k)
  }

  lemma {:induction false} PlaceAllAt(buf: Buffer, buf': Buffer, ps: seq<Placement>, k: nat)
    requires |buf| == |buf'| && k < |buf|
    ensures Covered(ps, |buf|, k) ==> PlaceAll(buf, ps)[k] == PlaceAll(buf', ps)[k]
    ensures !Covered(ps, |buf|, k) ==> PlaceAll(buf, ps)[k] == buf[k]
  {
    if ps != [] {
      var n := |ps| - 1;
      PlaceAllAt(buf, buf', ps[..n], k);
      if Covered(ps, |buf|, k) && !Covers(ps[n], |buf|, k) {
        var i: nat :| i < |ps| && Covers(ps[i], |buf|, k);
        assert ps[..n][i] == ps[i];
      }
      if Covered(ps[..n], |buf|, k) {
        var i: nat :| i < n && Covers(ps[..n][i], |buf|, k);
        assert ps[..n][i] == ps[i];
      }
    }
  }

  /** The copies determine the buffer's contents, whatever it held, exactly when they cover every byte. */
  lemma PlaceAllDeterminedIff(size: nat, ps: seq<Placement>)
    ensures (forall a: Buffer, b: Buffer | |a| == |b| == size :: PlaceAll(a, ps) == PlaceAll(b, ps)) <==>
            (forall k: nat | k < size :: Covered(ps, size, k))
  {
    if forall k: nat | k < size :: Covered(ps, size, k) {
      forall a: Buffer, b: Buffer | |a| == |b| == size ensures PlaceAll(a, ps) == PlaceAll(b, ps) {
        forall k: nat | k < size ensures PlaceAll(a, ps)[k] == PlaceAll(b, ps)[k] {
          PlaceAllAt(a, b, ps, k);
        }
      }
    } else {
      var k: nat :| k < size && !Covered(ps, size, k);
      var a: Buffer := seq(size, _ => 0);
      var b: Buffer := seq(size, _ => 1);
      PlaceAllAt(a, b, ps, k);
      PlaceAllAt(b, a, ps, k);
      assert PlaceAll(a, ps)[k] != PlaceAll(b, ps)[k];
    }
  }

  /** The position the i-th of a run of back-to-back copies must start at. */
  function EndOf(ps: seq<Placement>, i: nat): nat
    requires i <= |ps|
  {
    if i == 0 then 0 else ps[i - 1].at + |ps[i - 1].src|
  }

  /** Each copy starts where the one before ended; the first at 0, the last ending at size. */
  ghost predicate BackToBack(ps: seq<Placement>, size: nat) {
    (forall i: nat {:trigger EndOf(ps, i)} | i < |ps| :: ps[i].at == EndOf(ps, i)) && EndOf(ps, |ps|) == size
  }

  lemma {:induction false} BackToBackMonotone(ps: seq<Placement>, size: nat, i: nat, j: nat)
    requires BackToBack(ps, size) && i <= j <= |ps|
    ensures EndOf(ps, i) <= EndOf(ps, j) <= size
    decreases |ps| - i
  {
    if i < |ps| {
      assert EndOf(ps, i) == ps[i].at;
      BackToBackMonotone(ps, size, i + 1, Max(i + 1, j));
    }
  }

  /** Back-to-back copies write every byte exactly once. */
  lemma BackToBackCoversOnce(ps: seq<Placement>, size: nat, k: nat)
    requires BackToBack(ps, size) && k < size
    ensures Covered(ps, size, k)
    ensures forall i: nat, j: nat | i < |ps| && j < |ps| && Covers(ps[i], size, k) && Covers(ps[j], size, k) :: i == j
  {
    var i := CoveringIndex(ps, size, k, |ps|);
    BackToBackMonotone(ps, size, i + 1, |ps|);
    assert Covers(ps[i], size, k);
    forall i: nat, j: nat | i < j < |ps|
      ensures !(Covers(ps[i], size, k) && Covers(ps[j], size, k))
    {
      CopiesDisjoint(ps, size, i, j);
    }
  }

  lemma CopiesDisjoint(ps: seq<Placement>, size: nat, i: nat, j: nat)
    requires BackToBack(ps, size) && i < j < |ps|
    ensures ps[i].at + |ps[i].src| <= ps[j].at
  {
    BackToBackMonotone(ps, size, i + 1, j);
    assert ps[j].at == EndOf(ps, j);
  }

  lemma {:induction false} CoveringIndex(ps: seq<Placement>, size: nat, k: nat, n: nat) returns (i: nat)
    requires BackToBack(ps, size) && n <= |ps| && k < EndOf(ps, n)
    ensures i < |ps| && ps[i].at <= k < ps[i].at + |ps[i].src|
  {
    if ps[n - 1].at <= k {
      i := n - 1;
    } else {
      i := CoveringIndex(ps, size, k, n - 1);
    }
  }

  /** The copy places the bytes from..to of a target where they belong. */
  ghost predicate PieceOf(p: Placement, target: Buffer, from: nat, to: nat) {
    p.at == from && from + |p.src| == to <= |target| && p.src == target[from..to]
  }

  ghost predicate IsPiece(ps: seq<Placement>, target: Buffer, cuts: seq<nat>, i: nat)
    requires i < |ps| && |cuts| == |ps| + 1
  {
    PieceOf(ps[i], target, cuts[i], cuts[i + 1])
  }

  /** The copies place the consecutive pieces between the cuts of a target. */
  ghost predicate CutInto(ps: seq<Placement>, target: Buffer, cuts: seq<nat>) {
    && |cuts| == |ps| + 1 && cuts[0] == 0 && cuts[|ps|] == |target|
    && forall i: nat | i < |ps| :: IsPiece(ps, target, cuts, i)
  }

  /** Copies of the consecutive pieces of a target rebuild it, whatever the buffer held before. */
  lemma {:induction false} PiecesRebuild(buf: Buffer, target: Buffer, ps: seq<Placement>, cuts: seq<nat>, n: nat)
    requires |buf| == |target| && n <= |ps| && CutInto(ps, target, cuts)
    ensures cuts[n] <= |target| && PlaceAll(buf, ps[..n])[..cuts[n]] == target[..cuts[n]]
    ensures n == |ps| ==> PlaceAll(buf, ps) == target
  {
    if n > 0 {
      var before, last := PlaceAll(buf, ps[..n - 1]), ps[n - 1];
      PiecesRebuild(buf, target, ps, cuts, n - 1);
      assert IsPiece(ps, target, cuts, n - 1);
      assert ps[..n][..n - 1] == ps[..n - 1];
      PieceExtends(before, target, last);
    }
    assert ps[..|ps|] == ps;
  }

  lemma PieceExtends(before: Buffer, target: Buffer, p: Placement)
    requires |before| == |target| && p.at + |p.src| <= |target|
    requires p.src == target[p.at..p.at + |p.src|] && before[..p.at] == target[..p.at]
    ensures CopyInto(before, p.at, p.src)[..p.at + |p.src|] == target[..p.at + |p.src|]
  {
    var after := CopyInto(before, p.at, p.src);
    forall k: nat | k < p.at + |p.src| ensures after[k] == target[k] {
      if k < p.at {
        assert before[k] == before[..p.at][k] == target[..p.at][k];
      } else {
        assert p.src[k - p.at] == target[p.at..p.at + |p.src|][k - p.at];
      }
    }
  }

  /** Copies of consecutive pieces follow each other back to back. */
  lemma PiecesBackToBack(target: Buffer, ps: seq<Placement>, cuts: seq<nat>)
    requires CutInto(ps, target, cuts)
    ensures BackToBack(ps, |target|)
  {
    forall i: nat | i <= |ps| ensures EndOf(ps, i) == cuts[i] {
      if i > 0 {
        assert IsPiece(ps, target, cuts, i - 1);
      }
    }
    forall i: nat | i < |ps| ensures ps[i].at == EndOf(ps, i) {
      assert IsPiece(ps, target, cuts, i);
    }
  }
}
