/**
 * The scenarios of urn_test.go stated as lemmas about the model, and inputs that
 * Parse accepts while New refuses them.
 */
module UrnExamples {
  import opened ByteStrings
  import opened Urn
  import opened UrnProperties

  /**
   * The bytes of a Go string literal. Every literal used here is ASCII, one byte per
   * character; any other character would stand for a zero byte.
   */
  function Ascii(s: string): (r: seq<Byte>)
    ensures |r| == |s|
    ensures forall k :: 0 <= k < |s| ==> r[k] == if s[k] < 128 as char then s[k] as Byte else 0
  {
    seq(|s|, k requires 0 <= k < |s| => if s[k] < 128 as char then s[k] as Byte else 0)
  }

  /** The bytes of the literal `urn:<nid>:<nss>`. */
  function UrnText(nid: string, nss: string): seq<Byte> {
    Ascii("urn:" + nid + ":" + nss)
  }

  /** The text form of a URN built from two literals is the literal `urn:<nid>:<nss>`. */
  lemma TextOf(nid: string, nss: string)
    ensures URN(Ascii(nid), Ascii(nss)).String() == UrnText(nid, nss)
  {
    assert UrnText(nid, nss) == UrnPrefix + [Delimiter] + Ascii(nid) + [Delimiter] + Ascii(nss);
  }

  /** One byte that differs from the prefix after lower-casing rules the prefix out. */
  lemma FoldMismatch(nid: seq<Byte>, prefix: seq<Byte>, i: nat)
    requires i < |prefix| && i < |nid| && LowerByte(nid[i]) != prefix[i]
    ensures !HasPrefixFold(nid, prefix)
  {
    if |prefix| <= |nid| {
      assert ToLower(nid[..|prefix|])[i] == LowerByte(nid[i]);
    }
  }

  /** Bytes that equal the prefix after lower-casing start with it. */
  lemma FoldMatch(nid: seq<Byte>, prefix: seq<Byte>)
    requires |prefix| <= |nid| && forall i :: 0 <= i < |prefix| ==> LowerByte(nid[i]) == prefix[i]
    ensures HasPrefixFold(nid, prefix)
  {
    var low := ToLower(nid[..|prefix|]);
    assert forall i :: 0 <= i < |prefix| ==> low[i] == LowerByte(nid[i]);
    assert low == prefix;
  }

  /** An NID whose first byte is none of `x`, `X`, `u`, `U` starts with no refused prefix. */
  lemma NoRefusedPrefix(nid: seq<Byte>)
    requires |nid| > 0 && LowerByte(nid[0]) != 'x' as Byte && LowerByte(nid[0]) != 'u' as Byte
    ensures !HasPrefixFold(nid, ExperimentalNidPrefix) && !HasPrefixFold(nid, XyNidPrefix)
    ensures !HasPrefixFold(nid, ReservedNidPrefix)
  {
    FoldMismatch(nid, ExperimentalNidPrefix, 0);
    FoldMismatch(nid, XyNidPrefix, 0);
    FoldMismatch(nid, ReservedNidPrefix, 0);
  }

  /** Two occurrences of a byte at different positions count at least twice. */
  lemma CountTwo(s: seq<Byte>, i: nat, j: nat, b: Byte)
    requires i < j < |s| && s[i] == b && s[j] == b
    ensures Count(s, b) >= 2
  {
    assert s == s[..j] + s[j..];
    assert s[..j][i] == b;
    assert s[j..][0] == b;
    CountConcat(s[..j], s[j..], b);
  }

  /** An NID of letters and digits whose length fits matches the pattern, holds no colon and is trimmed. */
  lemma AlnumNid(nid: seq<Byte>)
    requires 2 <= |nid| <= 32 && forall k :: 0 <= k < |nid| ==> IsAlnum(nid[k])
    ensures NidPattern(nid) && Delimiter !in nid && Trimmed(nid)
  {
    assert forall k :: 0 <= k < |nid| ==> nid[k] != Delimiter;
  }

  /** A non-empty NSS of NSS bytes only matches the pattern. */
  lemma PlainNss(nss: seq<Byte>)
    requires |nss| >= 1 && forall k :: 0 <= k < |nss| ==> IsNssByte(nss[k])
    ensures NssPattern(nss)
  {
    assert WellEscaped(nss) by {
      forall k | 0 <= k < |nss| ensures AllowedAt(nss, k) {
        assert IsNssByte(nss[k]);
      }
    }
    NssUnitsIffWellEscaped(nss);
  }

  /** The NID of the New scenarios is valid and has no surrounding white space. */
  lemma NewtonWorldValid()
    ensures ValidNid(Ascii("newtonworld")) && TrimSpace(Ascii("newtonworld")) == Ascii("newtonworld")
  {
    var nid := Ascii("newtonworld");
    AlnumNid(nid);
    NoRefusedPrefix(nid);
  }

  /** The NSS of the New scenarios is valid and has no surrounding white space. */
  lemma UserNssValid()
    ensures ValidNss(Ascii("user:test_-user")) && TrimSpace(Ascii("user:test_-user")) == Ascii("user:test_-user")
  {
    var nss := Ascii("user:test_-user");
    assert Trimmed(nss);
    PlainNss(nss);
  }

  /** "valid nid and nss": New accepts them, and the URN prints as `urn:newtonworld:user:test_-user`. */
  lemma NewValid()
    ensures New(Ascii("newtonworld"), Ascii("user:test_-user"))
      == Ok(URN(Ascii("newtonworld"), Ascii("user:test_-user")))
    ensures URN(Ascii("newtonworld"), Ascii("user:test_-user")).String()
      == UrnText("newtonworld", "user:test_-user")
  {
    NewtonWorldValid();
    UserNssValid();
    TextOf("newtonworld", "user:test_-user");
  }

  /** "valid nid and nss with HEX encoded": a percent escape in the NSS is accepted. */
  lemma NewValidHex()
    ensures New(Ascii("newtonworld"), Ascii("user:test_-user%2C"))
      == Ok(URN(Ascii("newtonworld"), Ascii("user:test_-user%2C")))
    ensures URN(Ascii("newtonworld"), Ascii("user:test_-user%2C")).String()
      == UrnText("newtonworld", "user:test_-user%2C")
  {
    NewtonWorldValid();
    HexNssValid();
    TextOf("newtonworld", "user:test_-user%2C");
  }

  /** The NSS of the HEX scenario, with the escape `%2C`, is valid and has no surrounding white space. */
  lemma HexNssValid()
    ensures ValidNss(Ascii("user:test_-user%2C"))
    ensures TrimSpace(Ascii("user:test_-user%2C")) == Ascii("user:test_-user%2C")
  {
    var nss := Ascii("user:test_-user%2C");
    assert Trimmed(nss);
    assert WellEscaped(nss) by {
      forall k | 0 <= k < |nss| ensures AllowedAt(nss, k) {
        assert k == 15 || IsNssByte(nss[k]);
      }
    }
    NssUnitsIffWellEscaped(nss);
  }

  /** "too short nid and valid nss". */
  lemma NewTooShort()
    ensures New(Ascii("n"), Ascii("user:test_-user")) == Err(CantCreate(NidTooShort))
  {
  }

  /** "empty nid and nss": the NID length is checked first. */
  lemma NewEmpty()
    ensures New(Ascii(""), Ascii("")) == Err(CantCreate(NidTooShort))
  {
  }

  /** "too long nid and valid nss": seventy-six `n` bytes. */
  lemma NewTooLong()
    ensures New(seq(76, _ => 'n' as Byte), Ascii("user:test_-user")) == Err(CantCreate(NidTooLong))
  {
    assert Trimmed(seq(76, _ => 'n' as Byte));
  }

  /** "reserved nid and valid nss". */
  lemma NewReserved()
    ensures New(Ascii("urn-nid"), Ascii("user:test_-user")) == Err(CantCreate(NidReserved))
  {
    var nid := Ascii("urn-nid");
    assert Trimmed(nid);
    FoldMismatch(nid, ExperimentalNidPrefix, 0);
    FoldMismatch(nid, XyNidPrefix, 0);
    FoldMatch(nid, ReservedNidPrefix);
  }

  /** "experimental nid and valid nss". */
  lemma NewExperimental()
    ensures New(Ascii("x-nid"), Ascii("user:test_-user")) == Err(CantCreate(NidExperimental))
  {
    var nid := Ascii("x-nid");
    assert Trimmed(nid);
    FoldMatch(nid, ExperimentalNidPrefix);
  }

  /** "experimental xy- nid and valid nss": the prefix check ignores letter case. */
  lemma NewXyPrefix()
    ensures New(Ascii("XY-nid"), Ascii("user:test_-user")) == Err(CantCreate(NidXyPrefix(Ascii("XY-nid"))))
  {
    var nid := Ascii("XY-nid");
    assert Trimmed(nid);
    FoldMismatch(nid, ExperimentalNidPrefix, 1);
    FoldMatch(nid, XyNidPrefix);
  }

  /** "wrong characters in nid and valid nss". */
  lemma NewNidMismatch()
    ensures New(Ascii("_$nid"), Ascii("user:test_-user")) == Err(CantCreate(NidMismatch(Ascii("_$nid"))))
  {
    var nid := Ascii("_$nid");
    assert Trimmed(nid);
    NoRefusedPrefix(nid);
    assert !IsAlnum(nid[0]);
  }

  /** "valid nid and empty nss". */
  lemma NewNssEmpty()
    ensures New(Ascii("newtonworld"), Ascii("")) == Err(CantCreate(NssTooShort))
  {
    NewtonWorldValid();
  }

  /** "valid nid and invalid nss": `%%` is no escape. */
  lemma NewNssMismatch()
    ensures New(Ascii("newtonworld"), Ascii("%%lol?kek")) == Err(CantCreate(NssMismatch))
  {
    NewtonWorldValid();
    EscapeNssMismatch();
  }

  /** `%%lol?kek` has no surrounding white space and fails the NSS pattern: `%%` is no escape. */
  lemma EscapeNssMismatch()
    ensures TrimSpace(Ascii("%%lol?kek")) == Ascii("%%lol?kek")
    ensures ValidateNss(Ascii("%%lol?kek")) == Fail(NssMismatch)
  {
    var nss := Ascii("%%lol?kek");
    assert Trimmed(nss);
    assert !NssUnits(nss);
  }

  /** "valid URN": Parse splits at the first two colons only, so the NSS keeps its colon. */
  lemma ParseValid()
    ensures Parse(UrnText("newtonworld228", "lol%AC_45:rRR"))
      == Ok(URN(Ascii("newtonworld228"), Ascii("lol%AC_45:rRR")))
  {
    var u := URN(Ascii("newtonworld228"), Ascii("lol%AC_45:rRR"));
    AlnumNid(u.nid);
    ValidUrnNss();
    ParseParts(u);
    TextOf("newtonworld228", "lol%AC_45:rRR");
  }

  /** The NSS of the "valid URN" scenario, with the escape `%AC` and a colon, matches the pattern. */
  lemma ValidUrnNss()
    ensures NssPattern(Ascii("lol%AC_45:rRR"))
  {
    var nss := Ascii("lol%AC_45:rRR");
    assert WellEscaped(nss) by {
      forall k | 0 <= k < |nss| ensures AllowedAt(nss, k) {
        assert k == 3 || IsNssByte(nss[k]);
      }
    }
    NssUnitsIffWellEscaped(nss);
  }

  /** "empty URN". */
  lemma ParseEmpty()
    ensures Parse(Ascii("")) == Err(InvalidFormat)
  {
  }

  /** The prefix scenario's input has two colons and does not start with `urn:`. */
  lemma IrnFacts(raw: seq<Byte>)
    requires raw == Ascii("irn:nid456:nss_$:kek")
    ensures TrimSpace(raw) == raw && Count(raw, Delimiter) >= 2 && !HasPrefix(raw, UrnPrefix + [Delimiter])
  {
    assert Trimmed(raw);
    CountTwo(raw, 3, 10, Delimiter);
    assert raw[..4][0] != (UrnPrefix + [Delimiter])[0];
  }

  /** "wrong prefix in URN". */
  lemma ParseWrongPrefix()
    ensures Parse(Ascii("irn:nid456:nss_$:kek")) == Err(MissingPrefix(Ascii("irn:nid456:nss_$:kek")))
  {
    IrnFacts(Ascii("irn:nid456:nss_$:kek"));
  }

  /** "wrong NID": the NID `$sdf` breaks the pattern, and the NSS is not looked at. */
  lemma ParseWrongNid()
    ensures Parse(UrnText("$sdf", "nss_$:kek")) == Err(InvalidNid(Ascii("$sdf")))
  {
    var u := URN(Ascii("$sdf"), Ascii("nss_$:kek"));
    assert forall k :: 0 <= k < |u.nid| ==> u.nid[k] != Delimiter;
    assert !IsAlnum(u.nid[0]);
    ParseParts(u);
    TextOf("$sdf", "nss_$:kek");
  }

  /** "wrong NSS": `?` is no NSS byte. */
  lemma ParseWrongNss()
    ensures Parse(UrnText("newtonworld228", "?kek:lol")) == Err(InvalidNss(Ascii("?kek:lol")))
  {
    var u := URN(Ascii("newtonworld228"), Ascii("?kek:lol"));
    AlnumNid(u.nid);
    assert !NssUnits(u.nss);
    ParseParts(u);
    TextOf("newtonworld228", "?kek:lol");
  }

  /** TestMarshalJSON: the JSON form of a URN is its text form in double quotes. */
  lemma MarshalJSONExample()
    ensures URN(Ascii("newtonworld228"), Ascii("myNSSwith_%23HEXvalue:kek")).MarshalJSON()
      == Ok([Quote] + UrnText("newtonworld228", "myNSSwith_%23HEXvalue:kek") + [Quote])
  {
    TextOf("newtonworld228", "myNSSwith_%23HEXvalue:kek");
  }

  /** Parse accepts a two-byte NID that New refuses as too short. */
  lemma ParseAcceptsShortNid()
    ensures Parse(UrnText("ab", "c")) == Ok(URN(Ascii("ab"), Ascii("c")))
    ensures New(Ascii("ab"), Ascii("c")) == Err(CantCreate(NidTooShort))
  {
    var nid, c := Ascii("ab"), Ascii("c");
    AlnumNid(nid);
    PlainNss(c);
    ParseSkipsNewRules(nid, c);
    TextOf("ab", "c");
  }

  /** Parse accepts an experimental `x-` NID that New refuses. */
  lemma ParseAcceptsExperimentalNid()
    ensures Parse(UrnText("x-ab", "c")) == Ok(URN(Ascii("x-ab"), Ascii("c")))
    ensures New(Ascii("x-ab"), Ascii("c")) == Err(CantCreate(NidExperimental))
  {
    var nid, c := Ascii("x-ab"), Ascii("c");
    assert NidPattern(nid);
    PlainNss(c);
    FoldMatch(nid, ExperimentalNidPrefix);
    ParseSkipsNewRules(nid, c);
    TextOf("x-ab", "c");
  }
}
