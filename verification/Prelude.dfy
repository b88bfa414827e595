/** Types shared by every component: bytes, optional values, results. */
module Prelude {

  /** One element of a Python `bytes` value. */
  type Byte = b: int | 0 <= b < 256

  type Bytes = seq<Byte>

  datatype Option<+T> = None | Some(value: T)

  datatype Result<+T, +E> = Ok(value: T) | Err(error: E)

  /** How many numbers fit into so many bytes. */
  function Pow256(width: nat): nat {
    if width == 0 then 1 else 256 * Pow256(width - 1)
  }

  lemma QuotientIs(x: nat, d: nat, q: nat, r: nat)
    requires x == q * d + r && r < d
    ensures x / d == q
  {
    var e := x / d - q;
    assert x == (x / d) * d + x % d;
    assert e * d == r - x % d;
    assert (e >= 1 ==> e * d >= d) && (e <= -1 ==> e * d <= -(d as int));
  }

  lemma DivPast(x: nat, p: nat)
    requires p > 0
    ensures x / (256 * p) == (x / 256) / p
  {
    var q, r := (x / 256) / p, (x / 256) % p;
    assert x / 256 == q * p + r;
    assert x == q * (256 * p) + (256 * r + x % 256);
    QuotientIs(x, 256 * p, q, 256 * r + x % 256);
  }

  lemma Pow256Steps(k: nat)
    ensures Pow256(0) == 1 && Pow256(k) > 0
    ensures k > 0 ==> Pow256(k) == 256 * Pow256(k - 1)
  {
    if k > 1 {
      Pow256Steps(k - 1);
    }
  }

  /** Concatenation of a list of pieces, as `b"".join` or `"".join` computes it. */
  function Flatten<T>(pieces: seq<seq<T>>): seq<T> {
    if pieces == [] then [] else pieces[0] + Flatten(pieces[1..])
  }

  lemma {:induction false} FlattenSnoc<T>(pieces: seq<seq<T>>, piece: seq<T>)
    ensures Flatten(pieces + [piece]) == Flatten(pieces) + piece
  {
    if pieces == [] {
      assert [piece][1..] == [];
    } else {
      assert (pieces + [piece])[1..] == pieces[1..] + [piece];
      FlattenSnoc(pieces[1..], piece);
    }
  }

  /** Keeping only the last n elements, as `del buffer[:-n]` does. */
  function LastN<T>(s: seq<T>, n: nat): (r: seq<T>)
    ensures |r| <= n && |r| <= |s|
  {
    if |s| <= n then s else s[|s| - n..]
  }

  /** It is the end of the sequence, as long as asked for if that much is there. */
  lemma LastNIs<T>(front: seq<T>, end: seq<T>)
    ensures LastN(front + end, |end|) == end
    ensures forall n :: |end| <= n ==> LastN(end, n) == end
  {
  }

  /** The last n elements can be kept incrementally: what was cut off before never matters. */
  lemma LastNIncremental<T>(a: seq<T>, b: seq<T>, n: nat)
    ensures LastN(LastN(a, n) + b, n) == LastN(a + b, n)
  {
    var k := if |a| <= n then 0 else |a| - n;
    assert LastN(a, n) + b == (a + b)[k..];
  }
}
