/** Parsing and printing the names and versions that appear in profiles shared
    on Thunderstore, and the header check on a shared-profile payload. */
module Thunderstore {
  import opened Common

  // ---------------------------------------------------------------------------
  // Searching a string

  /** The index of the first occurrence of `c` in `s`, as `str::find` with a
      single-character pattern (counted in characters here, not bytes). */
  function FirstIndex(s: string, c: char): (r: Option<nat>)
    ensures r.None? <==> c !in s
    ensures r.Some? ==> r.value < |s| && s[r.value] == c && c !in s[..r.value]
  {
    if s == [] then None
    else if s[0] == c then Some(0)
    else
      match FirstIndex(s[1..], c)
      case None => None
      case Some(i) =>
        assert s[..i + 1] == [s[0]] + s[1..][..i];
        Some(i + 1)
  }

  /** Only one position can be the first occurrence of a character. */
  lemma FirstOccurrenceUnique(s: string, c: char, i: nat, j: nat)
    requires i < |s| && s[i] == c && c !in s[..i]
    requires j < |s| && s[j] == c && c !in s[..j]
    ensures i == j
  {
    assert forall k | 0 <= k < j :: s[..j][k] == s[k];
    assert forall k | 0 <= k < i :: s[..i][k] == s[k];
  }

  /** The first occurrence of `c` in `a + [c] + b` is right after `a` when `a`
      does not contain `c`. */
  lemma FirstIndexAfter(a: string, c: char, b: string)
    requires c !in a
    ensures FirstIndex(a + [c] + b, c) == Some(|a|)
  {
    var s := a + [c] + b;
    assert s[|a|] == c && s[..|a|] == a;
    FirstOccurrenceUnique(s, c, FirstIndex(s, c).value, |a|);
  }

  // ---------------------------------------------------------------------------
  // Full package names

  /** True when `split` is the position of the first hyphen of `value`. */
  predicate SplitsAtFirstHyphen(value: string, split: nat) {
    split < |value| && value[split] == '-' && '-' !in value[..split]
  }

  datatype RawFullName = RawFullName(value: string, split: nat)

  /** A `namespace-name` package name, remembering where the first hyphen is. */
  type FullName = n: RawFullName | SplitsAtFirstHyphen(n.value, n.split)
    witness RawFullName("-", 0)

  /** The text before the first hyphen. */
  function Namespace(n: FullName): (ns: string)
    ensures '-' !in ns
    ensures ns + "-" <= n.value
  {
    n.value[..n.split]
  }

  /** The text after the first hyphen (it may contain further hyphens). */
  function Name(n: FullName): (nm: string)
    ensures |nm| < |n.value|
    ensures nm == n.value[|n.value| - |nm|..]
  {
    n.value[n.split + 1..]
  }

  /** The namespace and the name; joined by a hyphen they are the full name. */
  function Components(n: FullName): (r: (string, string))
    ensures '-' !in r.0
    ensures r.0 + "-" + r.1 == n.value
  {
    var ns := Namespace(n);
    var nm := Name(n);
    assert n.value == n.value[..n.split] + [n.value[n.split]] + n.value[n.split + 1..];
    (ns, nm)
  }

  datatype DeError = InvalidValue(unexpected: string)

  /** The deserialisation visitor. `visit_str` and `visit_string` run the same
      logic (one borrows the text, the other takes ownership), so both are this
      function: split at the first hyphen, or refuse a text without one. */
  function Deserialize(v: string): (r: Result<FullName, DeError>)
    ensures r.Err? <==> '-' !in v
    ensures r.Err? ==> r.error == InvalidValue(v)
    ensures r.Ok? ==> r.value.value == v && SplitsAtFirstHyphen(v, r.value.split)
  {
    match FirstIndex(v, '-')
    case None => Err(InvalidValue(v))
    case Some(split) => Ok(RawFullName(v, split))
  }

  /** `Serialize`, `Display` and `String::from` all emit the stored text,
      which reads back as the same name with the same split. */
  function Serialize(n: FullName): (r: string)
    ensures Deserialize(r) == Ok(n)
  {
    FirstOccurrenceUnique(n.value, '-', Deserialize(n.value).value.split, n.split);
    n.value
  }

  /** Serialising an accepted name gives back the text it was read from. */
  lemma TextRoundTrip(v: string)
    requires Deserialize(v).Ok?
    ensures Serialize(Deserialize(v).value) == v
  {
  }

  /** Any text of the form `namespace-name` with a hyphen-free namespace is
      accepted, and splits into exactly those two parts. */
  lemma DeserializeSplitsJoin(ns: string, nm: string)
    requires '-' !in ns
    ensures Deserialize(ns + "-" + nm).Ok?
    ensures Components(Deserialize(ns + "-" + nm).value) == (ns, nm)
  {
    FirstIndexAfter(ns, '-', nm);
    var v := ns + "-" + nm;
    assert v == ns + ['-'] + nm;
    assert v[..|ns|] == ns;
    assert v[|ns| + 1..] == nm;
  }

  // ---------------------------------------------------------------------------
  // Versions

  datatype Version = Version(major: uint64, minor: uint64, patch: uint64)

  predicate IsDigit(c: char) {
    '0' <= c <= '9'
  }

  function DigitChar(d: nat): (c: char)
    requires d < 10
    ensures IsDigit(c)
  {
    (48 + d) as char
  }

  function DigitValue(c: char): nat
    requires IsDigit(c)
  {
    c as int - 48
  }

  /** A non-empty run of decimal digits. */
  predicate IsDecimal(s: string) {
    |s| > 0 && forall i | 0 <= i < |s| :: IsDigit(s[i])
  }

  /** The value a run of decimal digits denotes. */
  function DecimalValue(s: string): nat
    requires forall i | 0 <= i < |s| :: IsDigit(s[i])
    decreases |s|
  {
    if s == [] then 0 else DecimalValue(s[..|s| - 1]) * 10 + DigitValue(s[|s| - 1])
  }

  /** How `{}` prints an unsigned integer: shortest decimal, no leading zero. */
  function Decimal(n: nat): (s: string)
    ensures IsDecimal(s)
    ensures DecimalValue(s) == n
    ensures s[0] == '0' ==> s == "0"
  {
    if n < 10 then [DigitChar(n)]
    else
      var hi := Decimal(n / 10);
      var s := hi + [DigitChar(n % 10)];
      assert s[..|s| - 1] == hi;
      s
  }

  /** `major.minor.patch`, each part in decimal; the reference reader gets
      the version back. */
  function DisplayVersion(v: Version): (r: string)
    ensures ParseVersion(r) == Some(v)
  {
    DottedDecimalsRead(v.major, v.minor, v.patch);
    Decimal(v.major) + "." + Decimal(v.minor) + "." + Decimal(v.patch)
  }

  /** Reads one `u64` written in decimal. */
  function ParseU64(s: string): Option<uint64> {
    if IsDecimal(s) && DecimalValue(s) < 0x1_0000_0000_0000_0000 then Some(DecimalValue(s)) else None
  }

  /** A reference reader for the printed form: three dot-separated decimals. */
  function ParseVersion(s: string): Option<Version> {
    match FirstIndex(s, '.')
    case None => None
    case Some(i) =>
      var rest := s[i + 1..];
      match FirstIndex(rest, '.')
      case None => None
      case Some(j) =>
        match (ParseU64(s[..i]), ParseU64(rest[..j]), ParseU64(rest[j + 1..]))
        case (Some(a), Some(b), Some(c)) => Some(Version(a, b, c))
        case _ => None
  }

  lemma DecimalHasNoDot(n: nat)
    ensures '.' !in Decimal(n)
  {
    var s := Decimal(n);
    assert forall i | 0 <= i < |s| :: s[i] != '.' by {
      assert forall i | 0 <= i < |s| :: IsDigit(s[i]);
    }
  }

  /** Three numbers printed in decimal and joined by dots read back as
      those numbers. */
  lemma DottedDecimalsRead(major: uint64, minor: uint64, patch: uint64)
    ensures ParseVersion(Decimal(major) + "." + Decimal(minor) + "." + Decimal(patch)) == Some(Version(major, minor, patch))
  {
    var a, b, c := Decimal(major), Decimal(minor), Decimal(patch);
    DecimalHasNoDot(major);
    DecimalHasNoDot(minor);
    var s := a + "." + b + "." + c;
    assert s == a + ['.'] + (b + "." + c);
    FirstIndexAfter(a, '.', b + "." + c);
    assert s[..|a|] == a;
    var rest := s[|a| + 1..];
    assert rest == b + ['.'] + c;
    FirstIndexAfter(b, '.', c);
    assert rest[..|b|] == b;
    assert rest[|b| + 1..] == c;
    assert ParseU64(a) == Some(major) && ParseU64(b) == Some(minor) && ParseU64(c) == Some(patch);
  }

  // ---------------------------------------------------------------------------
  // Shared-profile payloads

  /** The header every shared-profile payload starts with. */
  const ProfileDataPrefixText: string := "#r2modman\n"

  /** The same header as the bytes read off the wire. */
  const ProfileDataPrefix: seq<uint8> := [0x23, 0x72, 0x32, 0x6D, 0x6F, 0x64, 0x6D, 0x61, 0x6E, 0x0A]

  lemma PrefixBytesSpellHeader()
    ensures |ProfileDataPrefix| == |ProfileDataPrefixText| == 10
    ensures forall i | 0 <= i < 10 :: ProfileDataPrefix[i] == ProfileDataPrefixText[i] as int
  {
  }

  datatype ProfileError =
    | UnexpectedEof
    | InvalidProfileData
    | Base64Error

  /** Reads exactly the header's length, refuses anything but the header, and
      hands back the rest of the body for decoding. */
  function ProfilePayload(body: seq<uint8>): (r: Result<seq<uint8>, ProfileError>)
    ensures r.Ok? <==> ProfileDataPrefix <= body
    ensures r.Ok? ==> ProfileDataPrefix + r.value == body
    ensures |body| < |ProfileDataPrefix| ==> r == Err(UnexpectedEof)
    ensures |body| >= |ProfileDataPrefix| && r.Err? ==> r == Err(InvalidProfileData)
  {
    var n := |ProfileDataPrefix|;
    if |body| < n then Err(UnexpectedEof)
    else if body[..n] != ProfileDataPrefix then Err(InvalidProfileData)
    else
      assert body == body[..n] + body[n..];
      Ok(body[n..])
  }

  /** The profile archive's bytes: the header check, then base64 decoding of
      what follows it. The decoder is a parameter. */
  function DecodeProfile(body: seq<uint8>, base64: seq<uint8> -> Option<seq<uint8>>): (r: Result<seq<uint8>, ProfileError>)
    ensures !(ProfileDataPrefix <= body) ==> r.Err? && r.error != Base64Error
    ensures ProfileDataPrefix <= body ==>
      r == (match base64(body[|ProfileDataPrefix|..]) case Some(a) => Ok(a) case None => Err(Base64Error))
  {
    var payload :- ProfilePayload(body);
    match base64(payload)
    case None => Err(Base64Error)
    case Some(archive) => Ok(archive)
  }

  /** The header check comes first: on a bad header the decoder is never
      consulted, so any two decoders give the same outcome. */
  lemma HeaderCheckedBeforeDecoding(body: seq<uint8>, d1: seq<uint8> -> Option<seq<uint8>>, d2: seq<uint8> -> Option<seq<uint8>>)
    requires !(ProfileDataPrefix <= body)
    ensures DecodeProfile(body, d1) == DecodeProfile(body, d2)
  {
  }
}
