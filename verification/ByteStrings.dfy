/** Byte strings shared by the stream components. */
module ByteStrings {
  newtype Byte = b: int | 0 <= b < 256

  type Bytes = seq<Byte>

  /** The concatenation of a sequence of pieces. */
  function Flatten(pieces: seq<Bytes>): Bytes {
    if pieces == [] then [] else pieces[0] + Flatten(pieces[1..])
  }

  lemma {:induction false} FlattenAppend(a: seq<Bytes>, b: seq<Bytes>)
    ensures Flatten(a + b) == Flatten(a) + Flatten(b)
  {
    if a == [] {
      assert a + b == b;
    } else {
      assert (a + b)[1..] == a[1..] + b;
      FlattenAppend(a[1..], b);
    }
  }

  lemma Associative<T>(a: seq<T>, b: seq<T>, c: seq<T>)
    ensures (a + b) + c == a + (b + c)
  {
  }

  /** The first `n` pieces joined together. */
  function Joined(pieces: seq<Bytes>, n: nat): Bytes
    requires n <= |pieces|
  {
    if n == 0 then [] else Joined(pieces, n - 1) + pieces[n - 1]
  }

  /** `start` with the first `n` pieces appended one by one. */
  function Extended(start: Bytes, pieces: seq<Bytes>, n: nat): Bytes
    requires n <= |pieces|
  {
    if n == 0 then start else Extended(start, pieces, n - 1) + pieces[n - 1]
  }

  lemma {:induction false} ExtendedJoins(start: Bytes, pieces: seq<Bytes>, n: nat)
    requires n <= |pieces|
    ensures Extended(start, pieces, n) == start + Joined(pieces, n)
  {
    if n > 0 {
      ExtendedJoins(start, pieces, n - 1);
      Associative(start, Joined(pieces, n - 1), pieces[n - 1]);
    }
  }

  lemma {:induction false} ExtendedGrows(start: Bytes, pieces: seq<Bytes>, i: nat, n: nat)
    requires i <= n <= |pieces|
    ensures Extended(start, pieces, i) <= Extended(start, pieces, n)
    decreases n
  {
    if i < n {
      ExtendedGrows(start, pieces, i, n - 1);
    }
  }

  lemma {:induction false} JoinedGrows(pieces: seq<Bytes>, i: nat, n: nat)
    requires i <= n <= |pieces|
    ensures Joined(pieces, i) <= Joined(pieces, n)
    decreases n
  {
    if i < n {
      JoinedGrows(pieces, i, n - 1);
    }
  }

  lemma RightUnit<T>(a: seq<T>)
    ensures a + [] == a
  {
  }

  lemma CutBefore<T>(s: seq<T>, t: seq<T>, i: nat, j: nat)
    requires i <= j <= |s|
    ensures (s + t)[i..j] == s[i..j] && (s + t)[..j] == s[..j] && (s + t)[j..] == s[j..] + t
  {
  }

  lemma FlattenCons(p: Bytes, pieces: seq<Bytes>)
    ensures Flatten([p] + pieces) == p + Flatten(pieces)
  {
    assert ([p] + pieces)[1..] == pieces;
  }

  lemma FlattenOne(p: Bytes)
    ensures Flatten([p]) == p
  {
    assert [p][1..] == [];
  }

  /** bytes.IndexByte: the position of the first `c`, or -1. */
  method IndexByte(s: Bytes, c: Byte) returns (i: int)
    ensures i == FirstIndex(s, c)
  {
    i := 0;
    while i < |s|
      invariant 0 <= i <= |s| && c !in s[..i]
    {
      if s[i] == c {
        FirstIndexIs(s, c, i);
        return;
      }
      i := i + 1;
    }
    assert s[..|s|] == s;
    NoIndex(s, c);
    i := -1;
  }

  function FirstIndex(s: Bytes, c: Byte): (i: int)
    ensures i >= 0 ==> i < |s| && s[i] == c && c !in s[..i]
    ensures i < 0 ==> i == -1 && c !in s
  {
    if s == [] then -1
    else if s[0] == c then 0
    else
      var i := FirstIndex(s[1..], c);
      if i < 0 then -1 else assert s[..i + 1] == [s[0]] + s[1..][..i]; i + 1
  }

  /** The contract of FirstIndex determines it. */
  lemma {:induction false} FirstIndexIs(s: Bytes, c: Byte, i: nat)
    requires i < |s| && s[i] == c && c !in s[..i]
    ensures FirstIndex(s, c) == i
  {
    if i > 0 {
      assert s[..i] == [s[0]] + s[1..][..i - 1];
      assert s[0] in s[..i];
      FirstIndexIs(s[1..], c, i - 1);
    }
  }

  lemma NoIndex(s: Bytes, c: Byte)
    requires c !in s
    ensures FirstIndex(s, c) == -1
  {
  }
}
