/**
 * validateNID as written slices `nid[:4]` even when the NID holds three bytes. In Go that
 * reads into the slice's spare capacity, and panics when there is none. This module models
 * Go slices with their capacity to show both: the panic on an input whose trimmed NID
 * has no spare capacity, and that otherwise the extra byte never changes the verdict.
 */
module UrnFindings {
  import opened ByteStrings
  import opened Urn

  /** A Go slice: the window `[lo, hi)` on a backing array, whose capacity runs to the array's end. */
  datatype Slice = Slice(backing: seq<Byte>, lo: nat, hi: nat) {
    predicate Valid() {
      lo <= hi <= |backing|
    }

    /** The bytes the slice shows. */
    function Bytes(): (b: seq<Byte>)
      requires Valid()
      ensures |b| == hi - lo
    {
      backing[lo..hi]
    }

    /** cap(s). */
    function Cap(): (c: nat)
      requires Valid()
      ensures c >= |Bytes()|
    {
      |backing| - lo
    }
  }

  /** `s[:n]`: the first `n` bytes of the backing array from the slice's start; a panic beyond its capacity. */
  function Reslice(s: Slice, n: nat): (r: Run<seq<Byte>>)
    requires s.Valid()
    ensures r.Returns? <==> n <= s.Cap()
    ensures r.Returns? ==> |r.value| == n && r.value == s.backing[s.lo..s.lo + n]
    ensures r.Returns? && n <= |s.Bytes()| ==> r.value == s.Bytes()[..n]
  {
    if n <= s.Cap() then Returns(s.backing[s.lo..s.lo + n]) else Panics
  }

  /**
   * `[]byte(str)` for a string that escapes to the heap: the bytes of `str` in a fresh
   * array whose spare room, up to the allocator's size class, is zeroed.
   */
  function Allocate(str: seq<Byte>, spare: nat): (s: Slice)
    ensures s.Valid() && s.Bytes() == str && s.Cap() == |str| + spare
  {
    Slice(str + seq(spare, _ => 0), 0, |str|)
  }

  /** `s[i:j]`: the same backing array, a narrower window, the capacity running on to the end. */
  function SubSlice(s: Slice, i: nat, j: nat): (t: Slice)
    requires s.Valid() && i <= j <= |s.Bytes()|
    ensures t.Valid() && t.Bytes() == s.Bytes()[i..j]
    ensures t.backing == s.backing && t.lo == s.lo + i && t.hi == s.lo + j
  {
    var t := Slice(s.backing, s.lo + i, s.lo + j);
    assert t.Bytes() == s.Bytes()[i..j] by {
      assert forall k :: 0 <= k < j - i ==> t.Bytes()[k] == s.backing[s.lo + i + k];
    }
    t
  }

  /** Where bytes.TrimSpace starts its result: the count of leading white space bytes. */
  function TrimStart(b: seq<Byte>): (d: nat)
    ensures SpaceAround(b, TrimSpace(b), d)
  {
    TrimSpaceAt(b);
    |b| - |TrimLeft(b)|
  }

  /**
   * bytes.TrimSpace on a slice: the sub-slice `s[start:stop]`, which keeps the rest of the
   * backing array as capacity; nil when only white space is left.
   */
  function TrimSpaceSlice(s: Slice): (t: Slice)
    requires s.Valid()
    ensures t.Valid() && t.Bytes() == TrimSpace(s.Bytes())
    ensures t.Bytes() != [] ==>
      && t.backing == s.backing && s.lo <= t.lo && t.hi <= s.hi
      && AllSpace(s.Bytes()[t.hi - s.lo..])
  {
    TrimWindow(s, TrimSpace(s.Bytes()), TrimStart(s.Bytes()))
  }

  /** The window of `s` that holds `r`, which white space surrounds at offset `d`. */
  function TrimWindow(s: Slice, r: seq<Byte>, d: nat): (t: Slice)
    requires s.Valid() && SpaceAround(s.Bytes(), r, d)
    ensures t.Valid() && t.Bytes() == r
    ensures r != [] ==>
      && t.backing == s.backing && s.lo <= t.lo && t.hi <= s.hi
      && AllSpace(s.Bytes()[t.hi - s.lo..])
  {
    if r == [] then Slice([], 0, 0) else SubSlice(s, d, d + |r|)
  }

  /**
   * validateNID as written: the reserved prefix is looked for in `nid[:4]` whatever the
   * NID's length, so a three-byte NID without spare capacity makes it panic.
   */
  function ValidateNidAsWritten(nid: Slice): (r: Run<Outcome>)
    requires nid.Valid()
    ensures r.Panics? <==>
      && |nid.Bytes()| == 3 && nid.Cap() < 4
      && !HasPrefixFold(nid.Bytes(), ExperimentalNidPrefix) && !HasPrefixFold(nid.Bytes(), XyNidPrefix)
  {
    var b := nid.Bytes();
    if |b| < MinNidLength then Returns(Fail(NidTooShort))
    else if |b| > MaxNidLength then Returns(Fail(NidTooLong))
    else if ToLower(b[..2]) == ExperimentalNidPrefix then Returns(Fail(NidExperimental))
    else if ToLower(b[..3]) == XyNidPrefix then Returns(Fail(NidXyPrefix(b)))
    else match Reslice(nid, 4)
      case Panics => Panics
      case Returns(head) =>
        if ToLower(head) == ReservedNidPrefix then Returns(Fail(NidReserved))
        else if !NidPattern(b) then Returns(Fail(NidMismatch(b)))
        else Returns(Pass)
  }

  /** The first step of New as written: trim the freshly allocated NID, then validate it. */
  function NewNidAsWritten(nid: seq<Byte>, spare: nat): (r: Run<Outcome>)
    ensures r.Panics? ==> |TrimSpace(nid)| == 3 && spare == 0
  {
    ValidateNidAsWritten(TrimSpaceSlice(Allocate(nid, spare)))
  }

  /** Trimming `"     abc"` leaves `abc`. */
  lemma PaddedAbc()
    ensures TrimSpace([32, 32, 32, 32, 32, 97, 98, 99]) == [97, 98, 99]
  {
    var pad: seq<Byte> := [32, 32, 32, 32, 32];
    var abc: seq<Byte> := [97, 98, 99];
    assert pad + abc == [32, 32, 32, 32, 32, 97, 98, 99];
    TrimLeftPadded(pad, abc);
    assert TrimRight(abc) == abc;
  }

  /** `abc` is a valid NID. */
  lemma AbcValid()
    ensures ValidateNid([97, 98, 99]) == Pass
  {
    var abc: seq<Byte> := [97, 98, 99];
    assert ToLower(abc[..2])[0] != ExperimentalNidPrefix[0];
    assert ToLower(abc[..3])[0] != XyNidPrefix[0];
  }

  /**
   * The panic: `"     abc"` is eight bytes, a size class of its own, so the allocation has
   * no spare room; trimming leaves `abc` with capacity 3 and `nid[:4]` is out of range.
   * The guarded model accepts the NID.
   */
  lemma AsWrittenPanics()
    ensures NewNidAsWritten([32, 32, 32, 32, 32, 97, 98, 99], 0).Panics?
    ensures ValidateNid(TrimSpace([32, 32, 32, 32, 32, 97, 98, 99])) == Pass
  {
    var raw: seq<Byte> := [32, 32, 32, 32, 32, 97, 98, 99];
    PaddedAbc();
    AbcValid();
    var t := TrimSpaceSlice(Allocate(raw, 0));
    assert t.Bytes() == [97, 98, 99];
    assert t.Cap() == 3;
  }

  /** A byte that is white space or zero can never be the `-` that ends `urn-`. */
  lemma PaddingNotHyphen(b: Byte)
    requires IsSpace(b) || b == 0
    ensures LowerByte(b) != ReservedNidPrefix[3]
  {
  }

  /**
   * On any slice, validateNID as written gives the guarded verdict unless it panics, as long
   * as the byte past a three-byte NID, when there is one, does not lower-case to `-`.
   */
  lemma AsWrittenMatches(t: Slice)
    requires t.Valid()
    requires |t.Bytes()| == 3 && 4 <= t.Cap() ==> LowerByte(t.backing[t.lo + 3]) != ReservedNidPrefix[3]
    ensures ValidateNidAsWritten(t).Panics? || ValidateNidAsWritten(t) == Returns(ValidateNid(t.Bytes()))
  {
    var b := t.Bytes();
    if MinNidLength <= |b| <= MaxNidLength && ToLower(b[..2]) != ExperimentalNidPrefix
      && ToLower(b[..3]) != XyNidPrefix && 4 <= t.Cap()
    {
      var head := Reslice(t, 4).value;
      if |b| >= 4 {
        assert head == b[..4];
      } else {
        assert ToLower(head)[3] == LowerByte(t.backing[t.lo + 3]);
      }
    }
  }

  /**
   * After trimming a fresh allocation, the byte past a three-byte NID is trailing white space
   * of the input or zeroed spare room; and with any spare room there is such a byte.
   */
  lemma TrimmedNext(nid: seq<Byte>, spare: nat)
    ensures var t := TrimSpaceSlice(Allocate(nid, spare));
      |t.Bytes()| == 3 && 4 <= t.Cap() ==> IsSpace(t.backing[t.lo + 3]) || t.backing[t.lo + 3] == 0
    ensures var t := TrimSpaceSlice(Allocate(nid, spare));
      |t.Bytes()| == 3 && spare > 0 ==> 4 <= t.Cap()
  {
    var s := Allocate(nid, spare);
    var t := TrimSpaceSlice(s);
    if |t.Bytes()| == 3 {
      var k := t.hi;
      assert k == t.lo + 3 && k <= |nid|;
      if k < |nid| && 4 <= t.Cap() {
        assert s.Bytes()[k..][0] == s.backing[k];
      }
    }
  }

  /**
   * When it does not panic, validateNID as written agrees with the guarded ValidateNid;
   * with any spare room at all it never panics.
   */
  lemma AsWrittenAgrees(nid: seq<Byte>, spare: nat)
    ensures var r := NewNidAsWritten(nid, spare);
      r.Panics? || r == Returns(ValidateNid(TrimSpace(nid)))
    ensures spare > 0 ==> NewNidAsWritten(nid, spare).Returns?
  {
    var t := TrimSpaceSlice(Allocate(nid, spare));
    TrimmedNext(nid, spare);
    if |t.Bytes()| == 3 && 4 <= t.Cap() {
      PaddingNotHyphen(t.backing[t.lo + 3]);
    }
    AsWrittenMatches(t);
  }
}
