/**
 * The operations of Go's `bytes` package that the URN code calls: TrimSpace, SplitN, Join
 * and ToLower (bytes.Equal is sequence equality), on an explicit byte type. IndexByte,
 * Count and HasPrefix are aids for stating and proving them: SplitN searches with IndexByte,
 * its token count follows Count, and HasPrefix states where the URN prefix sits.
 * Only single-byte separators are modelled, since the URN delimiter is one byte.
 */
module ByteStrings {

  /** An octet, as held in a Go `[]byte`. */
  newtype Byte = b: int | 0 <= b < 256

  /** The ASCII white space that bytes.TrimSpace strips: '\t', '\n', '\v', '\f', '\r' and ' '. */
  predicate IsSpace(b: Byte) {
    b == 9 || b == 10 || b == 11 || b == 12 || b == 13 || b == 32
  }

  predicate AllSpace(s: seq<Byte>) {
    forall k :: 0 <= k < |s| ==> IsSpace(s[k])
  }

  /** Neither the first nor the last byte is white space. */
  predicate Trimmed(s: seq<Byte>) {
    s == [] || (!IsSpace(s[0]) && !IsSpace(s[|s| - 1]))
  }

  predicate IsUpper(b: Byte) { 'A' as Byte <= b <= 'Z' as Byte }
  predicate IsLower(b: Byte) { 'a' as Byte <= b <= 'z' as Byte }
  predicate IsDigit(b: Byte) { '0' as Byte <= b <= '9' as Byte }
  predicate IsAlpha(b: Byte) { IsUpper(b) || IsLower(b) }
  predicate IsAlnum(b: Byte) { IsAlpha(b) || IsDigit(b) }
  predicate IsHex(b: Byte) {
    IsDigit(b) || 'a' as Byte <= b <= 'f' as Byte || 'A' as Byte <= b <= 'F' as Byte
  }

  /** ASCII lower-casing of one byte; every other byte is left alone. */
  function LowerByte(b: Byte): Byte {
    if IsUpper(b) then b + 32 else b
  }

  /** bytes.ToLower, restricted to ASCII letters. */
  function ToLower(s: seq<Byte>): (r: seq<Byte>)
    ensures |r| == |s|
    ensures forall k :: 0 <= k < |s| ==> r[k] == LowerByte(s[k])
  {
    seq(|s|, k requires 0 <= k < |s| => LowerByte(s[k]))
  }

  /** bytes.HasPrefix. */
  predicate HasPrefix(s: seq<Byte>, prefix: seq<Byte>) {
    |prefix| <= |s| && s[..|prefix|] == prefix
  }

  /** bytes.Count with a one-byte separator: how many times `b` occurs in `s`. */
  function Count(s: seq<Byte>, b: Byte): (n: nat)
    ensures n <= |s|
    ensures n == 0 <==> b !in s
  {
    if s == [] then 0 else (if s[0] == b then 1 else 0) + Count(s[1..], b)
  }

  /** Occurrences add up over a concatenation. */
  lemma {:induction false} CountConcat(s: seq<Byte>, t: seq<Byte>, b: Byte)
    ensures Count(s + t, b) == Count(s, b) + Count(t, b)
  {
    if s != [] {
      assert (s + t)[1..] == s[1..] + t;
      CountConcat(s[1..], t, b);
    } else {
      assert s + t == t;
    }
  }

  /** Cutting at the first occurrence of `b` leaves one fewer `b` in what follows. */
  lemma CountAfterFirst(s: seq<Byte>, i: nat, b: Byte)
    requires i < |s| && s[i] == b && b !in s[..i]
    ensures Count(s, b) == Count(s[i + 1..], b) + 1
  {
    assert s == s[..i] + ([b] + s[i + 1..]);
    CountConcat(s[..i], [b] + s[i + 1..], b);
    CountConcat([b], s[i + 1..], b);
  }

  /** bytes.IndexByte: the index of the first `b` in `s`, or -1 when there is none. */
  function IndexByte(s: seq<Byte>, b: Byte): (i: int)
    ensures -1 <= i < |s|
    ensures i == -1 <==> b !in s
    ensures 0 <= i ==> s[i] == b && b !in s[..i]
  {
    if s == [] then -1
    else if s[0] == b then 0
    else
      var j := IndexByte(s[1..], b);
      assert s[1..][..j + 1] == s[1..j + 2] by {
        assert j + 1 <= |s[1..]| || j == -1;
      }
      if j < 0 then -1 else j + 1
  }

  /** Leading white space removed: what the first loop of bytes.TrimSpace does. */
  function TrimLeft(s: seq<Byte>): (r: seq<Byte>)
    ensures |r| <= |s| && r == s[|s| - |r|..]
    ensures r == [] || !IsSpace(r[0])
  {
    if s != [] && IsSpace(s[0]) then TrimLeft(s[1..]) else s
  }

  /** White space in front of a byte that is not is exactly what TrimLeft drops. */
  lemma {:induction false} TrimLeftPadded(pad: seq<Byte>, s: seq<Byte>)
    requires AllSpace(pad) && (s == [] || !IsSpace(s[0]))
    ensures TrimLeft(pad + s) == s
  {
    if pad == [] {
      assert pad + s == s;
    } else {
      assert (pad + s)[1..] == pad[1..] + s;
      TrimLeftPadded(pad[1..], s);
    }
  }

  /** What TrimLeft drops is white space. */
  lemma {:induction false} TrimLeftDrops(s: seq<Byte>)
    ensures AllSpace(s[..|s| - |TrimLeft(s)|])
  {
    if s != [] && IsSpace(s[0]) {
      TrimLeftDrops(s[1..]);
      var d := |s| - |TrimLeft(s)|;
      forall k | 0 <= k < d ensures IsSpace(s[k]) {
        if k > 0 {
          assert s[k] == s[1..][..d - 1][k - 1];
        }
      }
    }
  }

  /** Trailing white space removed: what the second loop of bytes.TrimSpace does. */
  function TrimRight(s: seq<Byte>): (r: seq<Byte>)
    ensures |r| <= |s| && r == s[..|r|]
    ensures r == [] || !IsSpace(r[|r| - 1])
  {
    if s != [] && IsSpace(s[|s| - 1]) then TrimRight(s[..|s| - 1]) else s
  }

  /** What TrimRight drops is white space. */
  lemma {:induction false} TrimRightDrops(s: seq<Byte>)
    ensures AllSpace(s[|TrimRight(s)|..])
  {
    if s != [] && IsSpace(s[|s| - 1]) {
      var init := s[..|s| - 1];
      TrimRightDrops(init);
      var m := |TrimRight(s)|;
      forall k | m <= k < |s| ensures IsSpace(s[k]) {
        if k < |s| - 1 {
          assert s[k] == init[m..][k - m];
        }
      }
    }
  }

  /**
   * bytes.TrimSpace: the slice of `s` left once leading and trailing white space is
   * removed. The result is trimmed at both ends, and an input that is already trimmed
   * comes back unchanged.
   */
  function TrimSpace(s: seq<Byte>): (r: seq<Byte>)
    ensures |r| <= |s|
    ensures Trimmed(r)
    ensures Trimmed(s) ==> r == s
  {
    var left := TrimLeft(s);
    var r := TrimRight(left);
    assert r != [] ==> r[0] == left[0];
    r
  }

  /** `r` sits in `s` at offset `i` with only white space before and after it. */
  predicate SpaceAround(s: seq<Byte>, r: seq<Byte>, i: int) {
    0 <= i <= |s| - |r| && r == s[i..i + |r|] && AllSpace(s[..i]) && AllSpace(s[i + |r|..])
  }

  /** TrimSpace keeps a contiguous part of its input and drops only white space around it. */
  lemma TrimSpaceDrops(s: seq<Byte>)
    ensures exists i :: SpaceAround(s, TrimSpace(s), i)
  {
    TrimSpaceAt(s);
  }

  /** The part TrimSpace keeps starts where the leading white space ends. */
  lemma TrimSpaceAt(s: seq<Byte>)
    ensures SpaceAround(s, TrimSpace(s), |s| - |TrimLeft(s)|)
  {
    var left := TrimLeft(s);
    var r := TrimRight(left);
    TrimLeftDrops(s);
    TrimRightDrops(left);
    SuffixThenPrefix(s, left, r);
    assert TrimSpace(s) == r;
  }

  /** A prefix `r` of a suffix `left` of `s`, each cut off at white space, sits in `s` with white space around. */
  lemma SuffixThenPrefix(s: seq<Byte>, left: seq<Byte>, r: seq<Byte>)
    requires |left| <= |s| && left == s[|s| - |left|..] && AllSpace(s[..|s| - |left|])
    requires |r| <= |left| && r == left[..|r|] && AllSpace(left[|r|..])
    ensures SpaceAround(s, r, |s| - |left|)
  {
    var i := |s| - |left|;
    assert r == s[i..i + |r|];
    assert s[i + |r|..] == left[|r|..];
  }

  /** bytes.Join with a one-byte separator. */
  function Join(parts: seq<seq<Byte>>, sep: Byte): seq<Byte> {
    if |parts| == 0 then []
    else if |parts| == 1 then parts[0]
    else parts[0] + [sep] + Join(parts[1..], sep)
  }

  /**
   * bytes.SplitN with a one-byte separator and n >= 1: at most n tokens, cut at the first
   * n - 1 separators; the last token is the unsplit remainder.
   */
  function SplitN(s: seq<Byte>, sep: Byte, n: nat): (tokens: seq<seq<Byte>>)
    requires n >= 1
    ensures 1 <= |tokens| <= n
    decreases n
  {
    if n == 1 then [s]
    else
      var i := IndexByte(s, sep);
      if i < 0 then [s] else [s[..i]] + SplitN(s[i + 1..], sep, n - 1)
  }

  /** SplitN yields one token more than there are separators, but never more than n. */
  predicate CountsTokens(s: seq<Byte>, sep: Byte, n: nat)
    requires n >= 1
  {
    |SplitN(s, sep, n)| == if Count(s, sep) < n then Count(s, sep) + 1 else n
  }

  lemma {:induction false} SplitNCount(s: seq<Byte>, sep: Byte, n: nat)
    requires n >= 1
    ensures CountsTokens(s, sep, n)
    decreases n
  {
    var i := IndexByte(s, sep);
    if n == 1 || i < 0 {
      assert SplitN(s, sep, n) == [s];
    } else {
      var rest := SplitN(s[i + 1..], sep, n - 1);
      assert |SplitN(s, sep, n)| == |rest| + 1;
      CountAfterFirst(s, i, sep);
      SplitNCount(s[i + 1..], sep, n - 1);
    }
  }

  /** A sequence is what comes before position `i`, the element at `i`, and what follows. */
  lemma CutAt(s: seq<Byte>, i: nat)
    requires i < |s|
    ensures s == s[..i] + [s[i]] + s[i + 1..]
  {
  }

  /** Joining the bytes before a separator with parts that join to the bytes after it. */
  lemma JoinAtCut(s: seq<Byte>, i: nat, rest: seq<seq<Byte>>, sep: Byte)
    requires i < |s| && s[i] == sep && |rest| >= 1 && Join(rest, sep) == s[i + 1..]
    ensures Join([s[..i]] + rest, sep) == s
  {
    JoinCons(s[..i], rest, sep);
    CutAt(s, i);
  }

  /** Join of a head part followed by at least one more part. */
  lemma JoinCons(head: seq<Byte>, rest: seq<seq<Byte>>, sep: Byte)
    requires |rest| >= 1
    ensures Join([head] + rest, sep) == head + [sep] + Join(rest, sep)
  {
    assert ([head] + rest)[1..] == rest;
  }

  /** Joining the tokens of SplitN with the separator gives back the input. */
  predicate JoinsBack(s: seq<Byte>, sep: Byte, n: nat)
    requires n >= 1
  {
    Join(SplitN(s, sep, n), sep) == s
  }

  lemma {:induction false} SplitNJoin(s: seq<Byte>, sep: Byte, n: nat)
    requires n >= 1
    ensures JoinsBack(s, sep, n)
    decreases n
  {
    var tokens := SplitN(s, sep, n);
    var i := IndexByte(s, sep);
    if n == 1 || i < 0 {
      assert tokens == [s];
    } else {
      var rest := SplitN(s[i + 1..], sep, n - 1);
      assert tokens == [s[..i]] + rest;
      SplitNJoin(s[i + 1..], sep, n - 1);
      JoinAtCut(s, i, rest, sep);
    }
  }

  /** Every token of SplitN but the last holds no separator. */
  predicate CutsAtSeparators(s: seq<Byte>, sep: Byte, n: nat)
    requires n >= 1
  {
    var tokens := SplitN(s, sep, n);
    forall k :: 0 <= k < |tokens| - 1 ==> sep !in tokens[k]
  }

  lemma {:induction false} SplitNTokens(s: seq<Byte>, sep: Byte, n: nat)
    requires n >= 1
    ensures CutsAtSeparators(s, sep, n)
    decreases n
  {
    var i := IndexByte(s, sep);
    if n > 1 && 0 <= i {
      var rest := SplitN(s[i + 1..], sep, n - 1);
      var tokens := [s[..i]] + rest;
      assert SplitN(s, sep, n) == tokens;
      SplitNTokens(s[i + 1..], sep, n - 1);
      forall k | 0 <= k < |tokens| - 1 ensures sep !in tokens[k] {
        if k > 0 {
          assert tokens[k] == rest[k - 1];
        }
      }
    }
  }

  /** Join of exactly three parts, written out. */
  lemma JoinThree(a: seq<Byte>, b: seq<Byte>, c: seq<Byte>, sep: Byte)
    ensures Join([a, b, c], sep) == a + [sep] + b + [sep] + c
  {
    assert [a, b, c][1..] == [b, c];
    assert [b, c][1..] == [c];
    assert Join([c], sep) == c;
    assert Join([b, c], sep) == b + [sep] + c;
  }

  /** IndexByte finds a position holding `b` when no earlier position does. */
  lemma IndexByteFirst(s: seq<Byte>, b: Byte, i: nat)
    requires i < |s| && s[i] == b && b !in s[..i]
    ensures IndexByte(s, b) == i
  {
    assert s[..i + 1][i] == b;
    var j := IndexByte(s, b);
    NotInPrefix(s, b, i);
    NotInPrefix(s, b, j);
  }

  /** A byte absent from the first `i` bytes differs from each of them. */
  lemma NotInPrefix(s: seq<Byte>, b: Byte, i: nat)
    requires i <= |s| && b !in s[..i]
    ensures forall k :: 0 <= k < i ==> s[k] != b
  {
    forall k | 0 <= k < i ensures s[k] != b {
      assert s[..i][k] == s[k];
    }
  }

  /** Splitting `head + [sep] + tail`, where `head` holds no separator, cuts right after `head`. */
  lemma SplitNCons(head: seq<Byte>, tail: seq<Byte>, sep: Byte, n: nat)
    requires n >= 2 && sep !in head
    ensures SplitN(head + [sep] + tail, sep, n) == [head] + SplitN(tail, sep, n - 1)
  {
    var s := head + [sep] + tail;
    assert s[..|head|] == head;
    assert s[|head| + 1..] == tail;
    IndexByteFirst(s, sep, |head|);
  }

  /**
   * SplitN into three undoes Join of three parts when the first two hold no separator:
   * the two cuts fall exactly after the first and the second part.
   */
  lemma SplitThreeJoin(a: seq<Byte>, b: seq<Byte>, c: seq<Byte>, sep: Byte)
    requires sep !in a && sep !in b
    ensures SplitN(Join([a, b, c], sep), sep, 3) == [a, b, c]
  {
    var t := b + [sep] + c;
    JoinThree(a, b, c, sep);
    assert Join([a, b, c], sep) == a + [sep] + t;
    SplitNCons(a, t, sep, 3);
    SplitNCons(b, c, sep, 2);
    assert SplitN(c, sep, 1) == [c];
  }

  /** ToLower works slice by slice and leaves lower-case bytes as they are. */
  lemma ToLowerFacts(s: seq<Byte>, k: nat)
    requires k <= |s|
    ensures ToLower(s[..k]) == ToLower(s)[..k]
    ensures ToLower(ToLower(s)) == ToLower(s)
  {
  }
}
