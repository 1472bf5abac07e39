/** Bytes, options and the few sequence facts that several components need. */
module Common {

  type byte = x: int | 0 <= x < 256

  const ETH_MAX_PACKET_SIZE: nat := 1520

  datatype Option<+T> = None | Some(value: T)

  /** All segments of a chain joined in order. */
  function Concat<T>(s: seq<seq<T>>): seq<T>
  {
    if s == [] then [] else s[0] + Concat(s[1..])
  }

  lemma {:induction false} ConcatAppend<T>(a: seq<seq<T>>, b: seq<seq<T>>)
    ensures Concat(a + b) == Concat(a) + Concat(b)
  {
    if a == [] {
      assert a + b == b;
    } else {
      var t := a[1..];
      ConcatAppend(t, b);
      assert (a + b)[1..] == t + b;
      assert a[0] + (Concat(t) + Concat(b)) == a[0] + Concat(t) + Concat(b);
    }
  }

  /** Joining one segment more. */
  lemma ConcatNext<T>(s: seq<seq<T>>, i: nat)
    requires i < |s|
    ensures Concat(s[..i + 1]) == Concat(s[..i]) + s[i]
  {
    ConcatAppend(s[..i], [s[i]]);
    assert s[..i + 1] == s[..i] + [s[i]];
    assert Concat([s[i]]) == s[i] + Concat([]);
  }

  /** A prefix of the chain is never longer than the whole chain. */
  lemma ConcatPrefix<T>(s: seq<seq<T>>, i: nat)
    requires i <= |s|
    ensures Concat(s[..i]) <= Concat(s)
  {
    ConcatAppend(s[..i], s[i..]);
    assert s == s[..i] + s[i..];
  }

  function Min(a: nat, b: nat): nat { if a < b then a else b }

  /** Position x of a ring of n slots, for x less than two turns. */
  function Wrap(x: nat, n: nat): (r: nat)
    requires x < 2 * n
    ensures r < n
  {
    if x < n then x else x - n
  }

  /** A slice of a slice. */
  lemma SubSlice<T>(s: seq<T>, at: nat, n: nat, i: nat, j: nat)
    requires at + n <= |s| && i <= j <= n
    ensures s[at..at + n][i..j] == s[at + i..at + j]
  {
    var a, b := s[at..at + n][i..j], s[at + i..at + j];
    forall k | 0 <= k < |a|
      ensures a[k] == b[k]
    {
      assert a[k] == s[at..at + n][i + k];
    }
  }

  /** How many steps lead from slot a to slot b of a ring of n slots. */
  function Distance(a: nat, b: nat, n: nat): (r: nat)
    requires a < n && b < n
    ensures r < n && Wrap(a + r, n) == b
  {
    if a <= b then b - a else b + n - a
  }
}
