/**
 * Uniform Resource Names of the form `urn:<NID>:<NSS>` (RFC 2141): the URN value, its
 * validating constructor New, the parser Parse and the serialisers String and MarshalJSON.
 * NID prefixes reserved by sections 4.1 and 4.3 of RFC 3406 are refused by New.
 */
module Urn {
  import opened ByteStrings

  // Prefixes an NID may not start with, compared case-insensitively.
  const ReservedNidPrefix: seq<Byte> := [117, 114, 110, 45]      // urn-
  const ExperimentalNidPrefix: seq<Byte> := [120, 45]            // x-
  const XyNidPrefix: seq<Byte> := [120, 121, 45]                 // xy-

  const UrnPrefix: seq<Byte> := [117, 114, 110]                  // urn
  const Delimiter: Byte := 58                                    // :
  const Quote: Byte := 34                                        // "
  const Percent: Byte := 37                                      // %

  const MinNidLength := 3
  const MaxNidLength := 32
  const MinNssLength := 1
  /** A raw URN is cut into at most this many tokens: prefix, NID and NSS. */
  const PartsCount := 3

  /** A byte of `[a-zA-Z0-9\-]`, the class every NID byte after the first belongs to. */
  predicate IsNidByte(b: Byte) {
    IsAlnum(b) || b == '-' as Byte
  }

  /** The NID pattern `^[a-zA-Z0-9]{1}[a-zA-Z0-9\-]{1,31}$`. */
  predicate NidPattern(nid: seq<Byte>) {
    2 <= |nid| <= 32 && IsAlnum(nid[0]) && forall k :: 1 <= k < |nid| ==> IsNidByte(nid[k])
  }

  /** A byte of `[a-zA-Z0-9\-+(),.:=@;$_!*']`, the bytes an NSS may hold outside escapes. */
  predicate IsNssByte(b: Byte) {
    || IsAlnum(b)
    || b == '-' as Byte || b == '+' as Byte || b == '(' as Byte || b == ')' as Byte
    || b == ',' as Byte || b == '.' as Byte || b == ':' as Byte || b == '=' as Byte
    || b == '@' as Byte || b == ';' as Byte || b == '$' as Byte || b == '_' as Byte
    || b == '!' as Byte || b == '*' as Byte || b == '\'' as Byte
  }

  /**
   * Zero or more NSS units: an escape `%HH` with two hexadecimal digits, or one byte of
   * the NSS class. `%` is not in that class, so a `%` always starts an escape.
   */
  predicate NssUnits(s: seq<Byte>)
    decreases |s|
  {
    if s == [] then true
    else if s[0] == Percent then 3 <= |s| && IsHex(s[1]) && IsHex(s[2]) && NssUnits(s[3..])
    else IsNssByte(s[0]) && NssUnits(s[1..])
  }

  /** The NSS pattern `^(?:%[0-9A-Fa-f]{2}|[a-zA-Z0-9\-+(),.:=@;$_!*'])+$`: one or more units. */
  predicate NssPattern(nss: seq<Byte>) {
    |nss| >= 1 && NssUnits(nss)
  }

  /** The lower-cased first |prefix| bytes of `nid` equal `prefix`; false when `nid` is shorter. */
  predicate HasPrefixFold(nid: seq<Byte>, prefix: seq<Byte>) {
    |prefix| <= |nid| && ToLower(nid[..|prefix|]) == prefix
  }

  /** Everything New demands of a trimmed NID. */
  predicate ValidNid(nid: seq<Byte>) {
    && MinNidLength <= |nid| <= MaxNidLength
    && !HasPrefixFold(nid, ExperimentalNidPrefix)
    && !HasPrefixFold(nid, XyNidPrefix)
    && !HasPrefixFold(nid, ReservedNidPrefix)
    && NidPattern(nid)
  }

  /** Everything New demands of a trimmed NSS. */
  predicate ValidNss(nss: seq<Byte>) {
    |nss| >= MinNssLength && NssPattern(nss)
  }

  /** Why validateNID or validateNSS refused its input. */
  datatype Reason =
    | NidTooShort                        // length of NID must be more than 2 letters long
    | NidTooLong                         // NID must be mot greater than 32 letters long
    | NidExperimental                    // NID x- is experimental
    | NidXyPrefix(nid: seq<Byte>)        // NID <nid> mustn't start with: xy-
    | NidReserved                        // NID urn- is reserved
    | NidMismatch(nid: seq<Byte>)        // NID <nid> doesn't satisfy pattern
    | NssTooShort                        // NSS must be at least one character long
    | NssMismatch                        // NSS doesn't satisfy the regexp rule
  {
    predicate IsNssReason() {
      NssTooShort? || NssMismatch?
    }
  }

  /** The errors New and Parse return. */
  datatype Error =
    | CantCreate(reason: Reason)         // New: can't create URN, reason: <reason>
    | InvalidFormat                      // invalid URN format, should be urn:<nid>:<nss>
    | MissingPrefix(raw: seq<Byte>)      // URN '<raw>' must have prefix - urn
    | InvalidNid(nid: seq<Byte>)         // NID <nid> doesn't satisfy pattern
    | InvalidNss(nss: seq<Byte>)         // NSS <nss> doesn't satisfy the regexp rule

  /** A Go error return of a validator: nil, or the reason. */
  datatype Outcome = Pass | Fail(reason: Reason)

  /** A Go `(value, error)` pair where exactly one is meaningful. */
  datatype Result<T> = Ok(value: T) | Err(error: Error)

  /** What a Go call yields: a value, or a run-time panic. */
  datatype Run<T> = Panics | Returns(value: T)

  /** An immutable URN: its namespace identifier and namespace-specific string, as bytes. */
  datatype URN = URN(nid: seq<Byte>, nss: seq<Byte>) {

    /** constructURN: the three parts joined by the delimiter, `urn:<nid>:<nss>`. */
    function Construct(): (r: seq<Byte>)
      ensures r == UrnPrefix + [Delimiter] + nid + [Delimiter] + nss
    {
      JoinThree(UrnPrefix, nid, nss, Delimiter);
      Join([UrnPrefix, nid, nss], Delimiter)
    }

    /** String: the text form; a Go string holds the same bytes as constructURN's slice. */
    function String(): (s: seq<Byte>)
      ensures |s| == |nid| + |nss| + 5
      ensures HasPrefix(s, UrnPrefix + [Delimiter]) && s[4..4 + |nid|] == nid
      ensures s[4 + |nid|] == Delimiter && s[5 + |nid|..] == nss
    {
      Construct()
    }

    /** MarshalJSON: the text form between double quotes; its error result is always nil. */
    function MarshalJSON(): (r: Result<seq<Byte>>)
      ensures r.Ok?
      ensures |r.value| == |String()| + 2
      ensures r.value[0] == Quote && r.value[|r.value| - 1] == Quote
      ensures r.value[1..|r.value| - 1] == String()
    {
      Ok([Quote] + Construct() + [Quote])
    }
  }

  /**
   * validateNID: the first rule the NID breaks, checked in the order length, experimental
   * prefix, xy prefix, reserved prefix, pattern; Pass exactly when the NID is valid.
   */
  function ValidateNid(nid: seq<Byte>): (o: Outcome)
    ensures o.Pass? <==> ValidNid(nid)
    ensures o == Fail(NidTooShort) <==> |nid| < MinNidLength
    ensures o == Fail(NidTooLong) <==> MaxNidLength < |nid|
    ensures o == Fail(NidExperimental) <==>
      MinNidLength <= |nid| <= MaxNidLength && HasPrefixFold(nid, ExperimentalNidPrefix)
    ensures o == Fail(NidXyPrefix(nid)) <==>
      MinNidLength <= |nid| <= MaxNidLength && !HasPrefixFold(nid, ExperimentalNidPrefix)
      && HasPrefixFold(nid, XyNidPrefix)
    ensures o == Fail(NidReserved) <==>
      MinNidLength <= |nid| <= MaxNidLength && !HasPrefixFold(nid, ExperimentalNidPrefix)
      && !HasPrefixFold(nid, XyNidPrefix) && HasPrefixFold(nid, ReservedNidPrefix)
    ensures o == Fail(NidMismatch(nid)) <==>
      MinNidLength <= |nid| <= MaxNidLength && !HasPrefixFold(nid, ExperimentalNidPrefix)
      && !HasPrefixFold(nid, XyNidPrefix) && !HasPrefixFold(nid, ReservedNidPrefix) && !NidPattern(nid)
    ensures o.Fail? ==> !o.reason.IsNssReason()
  {
    if |nid| < MinNidLength then Fail(NidTooShort)
    else if |nid| > MaxNidLength then Fail(NidTooLong)
    else if ToLower(nid[..2]) == ExperimentalNidPrefix then Fail(NidExperimental)
    else if ToLower(nid[..3]) == XyNidPrefix then Fail(NidXyPrefix(nid))
    // The source slices nid[:4] even when the NID has three bytes; the guard keeps to
    // the bytes of the NID, which can never spell `urn-` on their own.
    else if |nid| >= 4 && ToLower(nid[..4]) == ReservedNidPrefix then Fail(NidReserved)
    else if !NidPattern(nid) then Fail(NidMismatch(nid))
    else Pass
  }

  /** validateNSS: empty first, then the pattern; Pass exactly when the NSS is valid. */
  function ValidateNss(nss: seq<Byte>): (o: Outcome)
    ensures o.Pass? <==> ValidNss(nss)
    ensures o == Fail(NssTooShort) <==> |nss| < MinNssLength
    ensures o == Fail(NssMismatch) <==> MinNssLength <= |nss| && !NssPattern(nss)
    ensures o.Fail? ==> o.reason.IsNssReason()
  {
    if |nss| < MinNssLength then Fail(NssTooShort)
    else if !NssPattern(nss) then Fail(NssMismatch)
    else Pass
  }

  /**
   * New: trims both parts, validates the NID and then the NSS, and wraps the first
   * failure in CantCreate. On success the URN holds exactly the trimmed parts.
   */
  function New(nid: seq<Byte>, nss: seq<Byte>): (r: Result<URN>)
    ensures r.Ok? <==> ValidNid(TrimSpace(nid)) && ValidNss(TrimSpace(nss))
    ensures r.Ok? ==> r.value == URN(TrimSpace(nid), TrimSpace(nss))
    ensures r.Err? ==> r.error.CantCreate?
    ensures |TrimSpace(nid)| < MinNidLength ==> r == Err(CantCreate(NidTooShort))
    ensures r.Err? && r.error.reason.IsNssReason() ==> ValidNid(TrimSpace(nid))
    ensures !ValidNid(TrimSpace(nid)) ==> r == Err(CantCreate(ValidateNid(TrimSpace(nid)).reason))
    ensures ValidNid(TrimSpace(nid)) && !ValidNss(TrimSpace(nss)) ==>
      r == Err(CantCreate(ValidateNss(TrimSpace(nss)).reason))
  {
    var bNid := TrimSpace(nid);
    match ValidateNid(bNid)
    case Fail(reason) => Err(CantCreate(reason))
    case Pass =>
      var bNss := TrimSpace(nss);
      match ValidateNss(bNss)
      case Fail(reason) => Err(CantCreate(reason))
      case Pass => Ok(URN(bNid, bNss))
  }

  /**
   * parseRawURN: cuts the raw bytes at the first two delimiters; the first token must be
   * exactly `urn`, the second must match the NID pattern (and nothing more) and the
   * remainder, delimiters included, must match the NSS pattern.
   */
  function ParseRaw(raw: seq<Byte>): (r: Result<URN>)
    ensures r == Err(InvalidFormat) <==> Count(raw, Delimiter) < 2
    ensures r == Err(MissingPrefix(raw)) <==>
      2 <= Count(raw, Delimiter) && !HasPrefix(raw, UrnPrefix + [Delimiter])
    ensures r.Ok? ==> r.value.Construct() == raw
    ensures r.Ok? ==> Delimiter !in r.value.nid && NidPattern(r.value.nid) && NssPattern(r.value.nss)
    ensures r.Err? && r.error.InvalidNid? ==>
      && HasPrefix(raw, UrnPrefix + [Delimiter] + r.error.nid + [Delimiter])
      && Delimiter !in r.error.nid && !NidPattern(r.error.nid)
    ensures r.Err? && r.error.InvalidNss? ==>
      && |r.error.nss| + 5 <= |raw| && HasPrefix(raw, UrnPrefix + [Delimiter])
      && raw[|raw| - |r.error.nss|..] == r.error.nss && !NssPattern(r.error.nss)
    ensures r.Err? && r.error.MissingPrefix? ==> r.error.raw == raw
    ensures r.Err? ==> r.error.InvalidFormat? || r.error.MissingPrefix? || r.error.InvalidNid? || r.error.InvalidNss?
  {
    var tokens := SplitN(raw, Delimiter, PartsCount);
    SplitLayout(raw, tokens);
    CheckTokens(raw, tokens)
  }

  /** The bytes are `urn:<nid>:<nss>` for an NID that matches its pattern. */
  predicate NssAfterNid(raw: seq<Byte>, nid: seq<Byte>, nss: seq<Byte>) {
    NidPattern(nid) && raw == UrnPrefix + [Delimiter] + nid + [Delimiter] + nss
  }

  /** The checks parseRawURN applies to the tokens SplitN cut from the raw bytes. */
  function CheckTokens(raw: seq<Byte>, tokens: seq<seq<Byte>>): (r: Result<URN>)
    requires |tokens| == PartsCount <==> 2 <= Count(raw, Delimiter)
    requires |tokens| == PartsCount ==>
      && raw == tokens[0] + [Delimiter] + tokens[1] + [Delimiter] + tokens[2]
      && Delimiter !in tokens[0] && Delimiter !in tokens[1]
    ensures r == Err(InvalidFormat) <==> Count(raw, Delimiter) < 2
    ensures r == Err(MissingPrefix(raw)) <==>
      2 <= Count(raw, Delimiter) && !HasPrefix(raw, UrnPrefix + [Delimiter])
    ensures r.Ok? ==> r.value.Construct() == raw
    ensures r.Ok? ==> Delimiter !in r.value.nid && NidPattern(r.value.nid) && NssPattern(r.value.nss)
    ensures r.Err? && r.error.InvalidNid? ==>
      && HasPrefix(raw, UrnPrefix + [Delimiter] + r.error.nid + [Delimiter])
      && Delimiter !in r.error.nid && !NidPattern(r.error.nid)
    ensures r.Err? && r.error.InvalidNss? ==>
      && |r.error.nss| + 5 <= |raw| && HasPrefix(raw, UrnPrefix + [Delimiter])
      && raw[|raw| - |r.error.nss|..] == r.error.nss && !NssPattern(r.error.nss)
    ensures r.Err? && r.error.InvalidNss? ==> |tokens| == PartsCount && NssAfterNid(raw, tokens[1], r.error.nss)
    ensures r.Err? && r.error.MissingPrefix? ==> r.error.raw == raw
    ensures |tokens| == PartsCount && tokens[0] == UrnPrefix && NidPattern(tokens[1]) && NssPattern(tokens[2]) ==>
      r == Ok(URN(tokens[1], tokens[2]))
    ensures r.Err? ==> r.error.InvalidFormat? || r.error.MissingPrefix? || r.error.InvalidNid? || r.error.InvalidNss?
  {
    if |tokens| != PartsCount then Err(InvalidFormat)
    else
      var prefix, nid, nss := tokens[0], tokens[1], tokens[2];
      TokenFacts(raw, prefix, nid, nss);
      if prefix != UrnPrefix then Err(MissingPrefix(raw))
      else if !NidPattern(nid) then Err(InvalidNid(nid))
      else if !NssPattern(nss) then Err(InvalidNss(nss))
      else Ok(URN(nid, nss))
  }

  /**
   * SplitN with limit three yields three tokens exactly when the bytes hold two delimiters;
   * then the tokens rebuild the bytes, with delimiters only in the last one.
   */
  lemma SplitLayout(raw: seq<Byte>, tokens: seq<seq<Byte>>)
    requires tokens == SplitN(raw, Delimiter, PartsCount)
    ensures |tokens| == PartsCount <==> 2 <= Count(raw, Delimiter)
    ensures |tokens| == PartsCount ==>
      && raw == tokens[0] + [Delimiter] + tokens[1] + [Delimiter] + tokens[2]
      && Delimiter !in tokens[0] && Delimiter !in tokens[1]
  {
    SplitNCount(raw, Delimiter, PartsCount);
    if |tokens| == PartsCount {
      var a, b, c := tokens[0], tokens[1], tokens[2];
      SplitNJoin(raw, Delimiter, PartsCount);
      SplitNTokens(raw, Delimiter, PartsCount);
      assert tokens == [a, b, c];
      JoinThree(a, b, c, Delimiter);
    }
  }

  /** What the decomposition `prefix:nid:nss` of the raw bytes says about them. */
  lemma TokenFacts(raw: seq<Byte>, prefix: seq<Byte>, nid: seq<Byte>, nss: seq<Byte>)
    requires raw == prefix + [Delimiter] + nid + [Delimiter] + nss
    requires Delimiter !in prefix
    ensures prefix == UrnPrefix <==> HasPrefix(raw, UrnPrefix + [Delimiter])
    ensures prefix == UrnPrefix ==>
      && |raw| == |nid| + |nss| + 5
      && HasPrefix(raw, UrnPrefix + [Delimiter] + nid + [Delimiter])
      && raw[4..|raw| - |nss| - 1] == nid
      && raw[|raw| - |nss|..] == nss
  {
    PrefixToken(prefix, nid + [Delimiter] + nss, raw);
    if prefix == UrnPrefix {
      UrnParts(raw, nid, nss);
    }
  }

  /** Where the NID and the NSS sit in `urn:<nid>:<nss>`. */
  lemma UrnParts(raw: seq<Byte>, nid: seq<Byte>, nss: seq<Byte>)
    requires raw == UrnPrefix + [Delimiter] + nid + [Delimiter] + nss
    ensures |raw| == |nid| + |nss| + 5
    ensures HasPrefix(raw, UrnPrefix + [Delimiter] + nid + [Delimiter])
    ensures raw[4..|raw| - |nss| - 1] == nid
    ensures raw[|raw| - |nss|..] == nss
  {
    var p := UrnPrefix + [Delimiter] + nid + [Delimiter];
    assert raw == p + nss;
    assert raw[..|p|] == p;
    assert raw[4..|raw| - |nss| - 1] == p[4..|p| - 1];
  }

  /** The first token, which holds no delimiter, is `urn` exactly when the bytes start with `urn:`. */
  lemma PrefixToken(first: seq<Byte>, rest: seq<Byte>, raw: seq<Byte>)
    requires raw == first + [Delimiter] + rest && Delimiter !in first
    ensures first == UrnPrefix <==> HasPrefix(raw, UrnPrefix + [Delimiter])
  {
    var p := UrnPrefix + [Delimiter];
    if first == UrnPrefix {
      assert raw[..4] == p;
    }
    if HasPrefix(raw, p) {
      assert raw[|first|] == Delimiter;
      assert forall k :: 0 <= k < 3 ==> raw[k] == p[k] && p[k] != Delimiter;
      assert raw[3] == Delimiter;
      assert |first| == 3;
      assert first == raw[..3];
    }
  }

  /** Parse: parseRawURN on the input with surrounding white space removed. */
  function Parse(raw: seq<Byte>): (r: Result<URN>)
    ensures r.Ok? ==> r.value.String() == TrimSpace(raw)
    ensures r.Ok? ==> NidPattern(r.value.nid) && NssPattern(r.value.nss)
    ensures r == Err(InvalidFormat) <==> Count(TrimSpace(raw), Delimiter) < 2
    ensures r == Err(MissingPrefix(TrimSpace(raw))) <==>
      2 <= Count(TrimSpace(raw), Delimiter) && !HasPrefix(TrimSpace(raw), UrnPrefix + [Delimiter])
  {
    ParseRaw(TrimSpace(raw))
  }

  /** MustParse: Parse, with a panic in place of the error. */
  function MustParse(raw: seq<Byte>): (r: Run<URN>)
    ensures r.Panics? <==> Parse(raw).Err?
    ensures r.Returns? ==> Parse(raw) == Ok(r.value) && r.value.String() == TrimSpace(raw)
  {
    match ParseRaw(TrimSpace(raw))
    case Err(_) => Panics
    case Ok(u) => Returns(u)
  }
}
