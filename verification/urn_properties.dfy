/**
 * What the URN operations promise together: the NSS pattern read as a rule on every byte,
 * the round trips between New, Parse and String, the extra rules New enforces that Parse
 * does not, the JSON form needing no escapes, and NID validation ignoring letter case.
 */
module UrnProperties {
  import opened ByteStrings
  import opened Urn

  /** The byte at `k` is an NSS byte, or a `%` followed by two hexadecimal digits. */
  predicate AllowedAt(s: seq<Byte>, k: int)
    requires 0 <= k < |s|
  {
    IsNssByte(s[k]) || (s[k] == Percent && k + 2 < |s| && IsHex(s[k + 1]) && IsHex(s[k + 2]))
  }

  /** The NSS rule stated position by position instead of as a sequence of units. */
  predicate WellEscaped(s: seq<Byte>) {
    forall k :: 0 <= k < |s| ==> AllowedAt(s, k)
  }

  /** Hexadecimal digits are NSS bytes, and `%` is not one. */
  lemma HexIsNssByte(b: Byte)
    ensures IsHex(b) ==> IsNssByte(b)
    ensures !IsNssByte(Percent)
  {
  }

  /** Dropping the first `d` bytes moves every position `d` to the left. */
  lemma AllowedAtShift(s: seq<Byte>, d: nat, k: nat)
    requires d <= |s| && k < |s| - d
    ensures AllowedAt(s[d..], k) <==> AllowedAt(s, k + d)
  {
    var t := s[d..];
    assert t[k] == s[k + d];
    if k + 2 < |t| {
      assert t[k + 1] == s[k + d + 1] && t[k + 2] == s[k + d + 2];
    }
  }

  /** A sequence is well escaped exactly when its first `d` positions are allowed and its rest is well escaped. */
  lemma WellEscapedSplit(s: seq<Byte>, d: nat)
    requires d <= |s|
    ensures WellEscaped(s) <==> (forall k :: 0 <= k < d ==> AllowedAt(s, k)) && WellEscaped(s[d..])
  {
    forall k | 0 <= k < |s| - d ensures AllowedAt(s[d..], k) <==> AllowedAt(s, k + d) {
      AllowedAtShift(s, d, k);
    }
    if (forall k :: 0 <= k < d ==> AllowedAt(s, k)) && WellEscaped(s[d..]) {
      forall k | d <= k < |s| ensures AllowedAt(s, k) {
        AllowedAtShift(s, d, k - d);
      }
    }
  }

  /** The unit-by-unit reading of the NSS pattern and the byte-by-byte one agree. */
  lemma {:induction false} NssUnitsIffWellEscaped(s: seq<Byte>)
    ensures NssUnits(s) <==> WellEscaped(s)
    decreases |s|
  {
    HexIsNssByte(Percent);
    if s == [] {
    } else if s[0] == Percent {
      if 3 <= |s| {
        NssUnitsIffWellEscaped(s[3..]);
        WellEscapedSplit(s, 3);
        HexIsNssByte(s[1]);
        HexIsNssByte(s[2]);
        assert AllowedAt(s, 0) <==> IsHex(s[1]) && IsHex(s[2]);
        assert IsHex(s[1]) && IsHex(s[2]) ==> AllowedAt(s, 1) && AllowedAt(s, 2);
      } else {
        assert !AllowedAt(s, 0);
      }
    } else {
      NssUnitsIffWellEscaped(s[1..]);
      WellEscapedSplit(s, 1);
      assert AllowedAt(s, 0) <==> IsNssByte(s[0]);
    }
  }

  /** A byte a JSON string may hold without escaping: printable ASCII other than `"` and `\`. */
  predicate JsonPlain(b: Byte) {
    0x20 <= b < 0x7F && b != Quote && b != '\\' as Byte
  }

  /** The bytes of an NSS matching the pattern are NSS bytes or `%`, and the last one is no `%`. */
  lemma NssBytes(nss: seq<Byte>)
    requires NssPattern(nss)
    ensures forall k :: 0 <= k < |nss| ==> IsNssByte(nss[k]) || nss[k] == Percent
    ensures IsNssByte(nss[|nss| - 1])
  {
    NssUnitsIffWellEscaped(nss);
    forall k | 0 <= k < |nss| ensures IsNssByte(nss[k]) || nss[k] == Percent {
      assert AllowedAt(nss, k);
    }
    assert AllowedAt(nss, |nss| - 1);
  }

  /** An NID matching the pattern has no white space at its ends, so trimming keeps it. */
  lemma NidTrimmed(nid: seq<Byte>)
    requires NidPattern(nid)
    ensures TrimSpace(nid) == nid
  {
    assert IsNidByte(nid[|nid| - 1]);
    assert Trimmed(nid);
  }

  /** The text form of a URN whose parts match the patterns has no white space at its ends. */
  lemma StringTrimmed(u: URN)
    requires NidPattern(u.nid) && NssPattern(u.nss)
    ensures Trimmed(u.String())
  {
    var head := UrnPrefix + [Delimiter] + u.nid + [Delimiter];
    var s := head + u.nss;
    assert u.String() == s;
    NssBytes(u.nss);
    assert s[0] == head[0] == UrnPrefix[0];
    assert s[|s| - 1] == u.nss[|u.nss| - 1];
  }

  /**
   * On `urn:<nid>:<nss>` with no colon in the NID, parseRawURN checks the NID pattern, then
   * the NSS pattern, and otherwise returns exactly those two parts.
   */
  lemma ParseRawParts(u: URN)
    requires Delimiter !in u.nid
    ensures ParseRaw(u.Construct()) ==
      if !NidPattern(u.nid) then Err(InvalidNid(u.nid))
      else if !NssPattern(u.nss) then Err(InvalidNss(u.nss))
      else Ok(u)
  {
    assert Delimiter !in UrnPrefix;
    SplitThreeJoin(UrnPrefix, u.nid, u.nss, Delimiter);
  }

  /**
   * Parse on the text form of a URN whose NID has no colon and whose NSS does not end in
   * white space: trimming keeps the text, and parseRawURN judges the two parts.
   */
  lemma ParseParts(u: URN)
    requires Delimiter !in u.nid && (u.nss == [] || !IsSpace(u.nss[|u.nss| - 1]))
    ensures Parse(u.String()) ==
      if !NidPattern(u.nid) then Err(InvalidNid(u.nid))
      else if !NssPattern(u.nss) then Err(InvalidNss(u.nss))
      else Ok(u)
  {
    var s := u.String();
    assert s[|s| - 1] == if u.nss == [] then Delimiter else u.nss[|u.nss| - 1];
    assert Trimmed(s);
    ParseRawParts(u);
  }

  /**
   * parseRawURN reports a bad NSS only after the NID passed: the bytes are `urn:<nid>:<nss>`
   * for an NID matching its pattern and the reported NSS.
   */
  lemma InvalidNssAfterNid(raw: seq<Byte>)
    requires ParseRaw(raw).Err? && ParseRaw(raw).error.InvalidNss?
    ensures exists nid :: NidPattern(nid) && URN(nid, ParseRaw(raw).error.nss).Construct() == raw
  {
    var tokens := SplitN(raw, Delimiter, PartsCount);
    SplitLayout(raw, tokens);
    assert ParseRaw(raw) == CheckTokens(raw, tokens);
    var nid, nss := tokens[1], tokens[2];
    assert |tokens| == PartsCount && tokens[0] == UrnPrefix && NidPattern(nid);
    assert ParseRaw(raw) == Err(InvalidNss(nss));
    assert URN(nid, nss).Construct() == raw;
  }

  /** parseRawURN inverts constructURN on every URN whose parts match the two patterns. */
  lemma ParseRawConstruct(u: URN)
    requires NidPattern(u.nid) && NssPattern(u.nss)
    ensures ParseRaw(u.Construct()) == Ok(u)
  {
    assert Delimiter !in u.nid by {
      forall k | 0 <= k < |u.nid| ensures u.nid[k] != Delimiter {
        assert IsNidByte(u.nid[k]);
      }
    }
    ParseRawParts(u);
  }

  /** Parse inverts String on every URN whose parts match the two patterns. */
  lemma ParseString(u: URN)
    requires NidPattern(u.nid) && NssPattern(u.nss)
    ensures Parse(u.String()) == Ok(u)
  {
    StringTrimmed(u);
    ParseRawConstruct(u);
  }

  /** Every URN New builds survives String followed by Parse unchanged. */
  lemma NewThenParse(nid: seq<Byte>, nss: seq<Byte>)
    requires New(nid, nss).Ok?
    ensures Parse(New(nid, nss).value.String()) == New(nid, nss)
  {
    ParseString(New(nid, nss).value);
  }

  /** Parsing the text form of what Parse returns gives it again. */
  lemma ParseThenString(raw: seq<Byte>)
    requires Parse(raw).Ok?
    ensures Parse(Parse(raw).value.String()) == Parse(raw)
  {
    ParseString(Parse(raw).value);
  }

  /**
   * Parse checks only the NID pattern: a URN with a pattern-valid NID that New refuses
   * (two bytes long, or starting with `x-`, `xy-` or `urn-` in any case) still parses.
   */
  lemma ParseSkipsNewRules(nid: seq<Byte>, nss: seq<Byte>)
    requires NidPattern(nid) && NssPattern(nss) && !ValidNid(nid)
    ensures Parse(URN(nid, nss).String()) == Ok(URN(nid, nss))
    ensures New(nid, nss) == Err(CantCreate(ValidateNid(nid).reason))
  {
    ParseString(URN(nid, nss));
    NidTrimmed(nid);
  }

  /** Every byte may stand in a JSON string unescaped. */
  predicate AllJsonPlain(s: seq<Byte>) {
    forall k :: 0 <= k < |s| ==> JsonPlain(s[k])
  }

  /** Joining two sequences of plain bytes gives plain bytes. */
  lemma PlainConcat(a: seq<Byte>, b: seq<Byte>)
    requires AllJsonPlain(a) && AllJsonPlain(b)
    ensures AllJsonPlain(a + b)
  {
    forall k | 0 <= k < |a + b| ensures JsonPlain((a + b)[k]) {
      if k < |a| {
        assert (a + b)[k] == a[k];
      } else {
        assert (a + b)[k] == b[k - |a|];
      }
    }
  }

  /** The text form of a URN whose parts match the patterns is made of plain bytes only. */
  lemma StringPlain(u: URN)
    requires NidPattern(u.nid) && NssPattern(u.nss)
    ensures AllJsonPlain(u.String())
  {
    var p := UrnPrefix + [Delimiter];
    assert AllJsonPlain(p) by {
      assert p == [117, 114, 110, 58];
    }
    assert AllJsonPlain(u.nid) by {
      forall k | 0 <= k < |u.nid| ensures JsonPlain(u.nid[k]) {
        assert k == 0 || IsNidByte(u.nid[k]);
      }
    }
    assert AllJsonPlain([Delimiter]);
    NssBytes(u.nss);
    PlainConcat(p, u.nid);
    PlainConcat(p + u.nid, [Delimiter]);
    PlainConcat(p + u.nid + [Delimiter], u.nss);
    assert u.String() == p + u.nid + [Delimiter] + u.nss;
  }

  /** MarshalJSON yields a JSON string literal whose content is the text form, with nothing to escape. */
  lemma MarshalJSONPlain(u: URN)
    requires NidPattern(u.nid) && NssPattern(u.nss)
    ensures var j := u.MarshalJSON().value;
      && j == [Quote] + u.String() + [Quote]
      && forall k :: 0 < k < |j| - 1 ==> JsonPlain(j[k])
  {
    var j := u.MarshalJSON().value;
    var s := u.String();
    assert j == [Quote] + s + [Quote];
    StringPlain(u);
    forall k | 0 < k < |j| - 1 ensures JsonPlain(j[k]) {
      assert j[k] == s[k - 1];
    }
  }

  /** Lower-casing keeps a byte's NID and NSS classes. */
  lemma LowerByteClasses(b: Byte)
    ensures IsAlnum(LowerByte(b)) <==> IsAlnum(b)
    ensures IsNidByte(LowerByte(b)) <==> IsNidByte(b)
  {
  }

  /** The case-insensitive prefix checks see the same thing in an NID and in its lower-case form. */
  lemma HasPrefixFoldLower(nid: seq<Byte>, prefix: seq<Byte>)
    ensures HasPrefixFold(nid, prefix) <==> HasPrefixFold(ToLower(nid), prefix)
  {
    if |prefix| <= |nid| {
      ToLowerFacts(nid, |prefix|);
      ToLowerFacts(ToLower(nid), |prefix|);
    }
  }

  /** NID validation ignores letter case: an NID is valid exactly when its lower-case form is. */
  lemma ValidNidIgnoresCase(nid: seq<Byte>)
    ensures ValidNid(nid) <==> ValidNid(ToLower(nid))
  {
    var low := ToLower(nid);
    HasPrefixFoldLower(nid, ExperimentalNidPrefix);
    HasPrefixFoldLower(nid, XyNidPrefix);
    HasPrefixFoldLower(nid, ReservedNidPrefix);
    forall k | 0 <= k < |nid| ensures IsNidByte(low[k]) <==> IsNidByte(nid[k]) {
      LowerByteClasses(nid[k]);
    }
    if |nid| > 0 {
      LowerByteClasses(nid[0]);
    }
    assert NidPattern(nid) <==> NidPattern(low);
  }
}
