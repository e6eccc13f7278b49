/**
 * Host and origin normalisation and the request check that rests on it. A textual authority is
 * shown to denote one abstract host and port, and its normal form to be the printout of that, so
 * that two spellings are treated alike exactly when they denote the same thing.
 */
module TransportSecurity {
  import opened Common
  import opened Segments

  const COLON: byte := ':' as int
  const DOT: byte := '.' as int
  const DASH: byte := '-' as int
  const OPEN: byte := '[' as int
  const CLOSE: byte := ']' as int
  const ZERO: byte := '0' as int

  const MAX_NAME_BYTES := 253
  const MAX_LABEL_BYTES := 63
  const MAX_PORT := 0xFFFF

  type V6 = n: int | 0 <= n < 0x1_0000_0000_0000_0000_0000_0000_0000_0000

  /** The standard library's textual IP addresses. */
  datatype IpText = IpText(
    v4Parse: Bytes -> Option<u32>, v4Print: u32 -> Bytes,
    v6Parse: Bytes -> Option<V6>, v6Print: V6 -> Bytes)
  {
    /** Printing round-trips, and only the documented characters are ever accepted. */
    ghost predicate Lawful() {
      && (forall a: u32 :: v4Parse(v4Print(a)) == Some(a))
      && (forall a: V6 :: v6Parse(v6Print(a)) == Some(a))
      && (forall s: Bytes :: v4Parse(s).Some? ==> V4Text(s))
      && (forall s: Bytes :: v6Parse(s).Some? ==> V6Text(s))
      && (forall s: Bytes {:trigger Lower(s)} :: v6Parse(Lower(s)) == v6Parse(s))
    }
  }

  predicate Alphanumeric(b: byte) { Digit(b) || 'a' as int <= LowerByte(b) <= 'z' as int }

  predicate V4Text(s: Bytes) {
    Dotless(s) && forall i :: 0 <= i < |s| ==> Digit(s[i]) || s[i] == DOT
  }

  predicate V6Text(s: Bytes) {
    COLON in s && forall i :: 0 <= i < |s| ==> Alphanumeric(s[i]) || s[i] == DOT || s[i] == COLON
  }

  /** Not empty and not ending in a dot. */
  predicate Dotless(s: Bytes) {
    s != [] && s[|s| - 1] != DOT
  }

  function LowerByte(b: byte): byte {
    if 'A' as int <= b <= 'Z' as int then b + 32 else b
  }

  /** `to_ascii_lowercase`. */
  function Lower(s: Bytes): (lower: Bytes)
    ensures |lower| == |s| && forall i :: 0 <= i < |s| ==> lower[i] == LowerByte(s[i])
  {
    seq(|s|, i requires 0 <= i < |s| => LowerByte(s[i]))
  }

  // ---------------------------------------------------------------- the source's functions

  predicate SpaceOrControl(b: byte) { b <= 0x20 || b == 0x7F }

  predicate Special(b: byte) {
    b == '*' as int || b == '/' as int || b == '?' as int || b == '#' as int || b == '@' as int || b == '\\' as int
  }

  predicate HasSpaceOrControl(s: Bytes) {
    exists i :: 0 <= i < |s| && SpaceOrControl(s[i])
  }

  predicate Refused(s: Bytes) {
    s == [] || exists i :: 0 <= i < |s| && (SpaceOrControl(s[i]) || Special(s[i]))
  }

  function Value(digits: Bytes): nat
    requires AllDigits(digits)
  {
    if digits == [] then 0 else Value(digits[..|digits| - 1]) * 10 + (digits[|digits| - 1] - ZERO)
  }

  function Decimal(n: nat): Bytes {
    if n < 10 then [ZERO + n] else Decimal(n / 10) + [ZERO + n % 10]
  }

  /** `parse_port`: any number of digits whose value is a non-zero `u16`. */
  function ParsePort(port: Bytes): Option<nat> {
    if port == [] || !AllDigits(port) then None
    else if Value(port) > MAX_PORT || Value(port) == 0 then None
    else Some(Value(port))
  }

  function ParsePortSuffix(remainder: Bytes): Option<Bytes> {
    if remainder == [] then Some([])
    else if remainder[0] != COLON then None
    else
      var port :- ParsePort(remainder[1..]);
      Some([COLON] + Decimal(port))
  }

  predicate ValidLabel(name: Bytes) {
    && 1 <= |name| <= MAX_LABEL_BYTES
    && (forall i :: 0 <= i < |name| ==> Alphanumeric(name[i]) || name[i] == DASH)
    && name[0] != DASH && name[|name| - 1] != DASH
  }

  predicate ValidDnsName(host: Bytes) {
    |host| <= MAX_NAME_BYTES && forall i :: 0 <= i < |Split(host, DOT)| ==> ValidLabel(Split(host, DOT)[i])
  }

  /** `strip_suffix('.')`, or the text itself. */
  function Undot(s: Bytes): Bytes {
    if s != [] && s[|s| - 1] == DOT then s[..|s| - 1] else s
  }

  function NormalizeAuthority(ip: IpText, authority: Bytes): Option<Bytes> {
    if Refused(authority) then None
    else if authority[0] == OPEN then NormalizeBracketed(ip, authority[1..])
    else NormalizeNamed(ip, authority)
  }

  function NormalizeBracketed(ip: IpText, bracketed: Bytes): Option<Bytes> {
    var close := IndexOf(bracketed, CLOSE);
    if close == |bracketed| then None
    else
      var address :- ip.v6Parse(bracketed[..close]);
      var port :- ParsePortSuffix(bracketed[close + 1..]);
      Some([OPEN] + ip.v6Print(address) + [CLOSE] + port)
  }

  function NormalizeNamed(ip: IpText, authority: Bytes): Option<Bytes> {
    if OPEN in authority || CLOSE in authority || multiset(authority)[COLON] > 1 then None
    else
      var colon := IndexOf(authority, COLON);
      var port :- ParsePortSuffix(authority[colon..]);
      var host :- NormalizeRawHost(ip, Undot(authority[..colon]));
      Some(host + port)
  }

  function NormalizeRawHost(ip: IpText, raw: Bytes): Option<Bytes> {
    if !Dotless(raw) then None
    else if ip.v4Parse(raw).Some? then Some(ip.v4Print(ip.v4Parse(raw).value))
    else if ip.v6Parse(raw).Some? then None
    else if ValidDnsName(raw) then Some(Lower(raw))
    else None
  }

  // ---------------------------------------------------------------- what an authority denotes

  datatype Host = V4Host(v4: u32) | V6Host(v6: V6) | NamedHost(name: Bytes)

  datatype Authority = Authority(host: Host, port: Option<nat>)

  predicate SpellsHost(ip: IpText, text: Bytes, host: Host) {
    match host
    case V6Host(a) =>
      |text| >= 2 && text[0] == OPEN && text[|text| - 1] == CLOSE && ip.v6Parse(text[1..|text| - 1]) == Some(a)
    case V4Host(a) => Dotless(Undot(text)) && ip.v4Parse(Undot(text)) == Some(a)
    case NamedHost(name) =>
      && Dotless(Undot(text)) && ip.v4Parse(Undot(text)).None?
      && ValidDnsName(Undot(text)) && Lower(Undot(text)) == name
  }

  predicate SpellsPort(text: Bytes, port: Option<nat>) {
    match port
    case None => text == []
    case Some(n) =>
      |text| > 1 && text[0] == ':' as int && AllDigits(text[1..]) && Value(text[1..]) == n && 1 <= n <= 65535
  }

  /** The text is a spelling of the authority, its host ending at `cut`. */
  predicate Spells(ip: IpText, text: Bytes, cut: nat, a: Authority) {
    cut <= |text| && SpellsHost(ip, text[..cut], a.host) && SpellsPort(text[cut..], a.port)
  }

  function PrintHost(ip: IpText, host: Host): Bytes {
    match host
    case V4Host(a) => ip.v4Print(a)
    case V6Host(a) => [OPEN] + ip.v6Print(a) + [CLOSE]
    case NamedHost(name) => name
  }

  function PrintPort(port: Option<nat>): Bytes {
    match port
    case None => []
    case Some(n) => [COLON] + Decimal(n)
  }

  function PrintAuthority(ip: IpText, a: Authority): Bytes {
    PrintHost(ip, a.host) + PrintPort(a.port)
  }

  // ---------------------------------------------------------------- ports

  lemma {:induction false} DecimalRoundTrip(n: nat)
    ensures Decimal(n) != [] && AllDigits(Decimal(n)) && Value(Decimal(n)) == n
  {
    if n < 10 {
      assert Value([]) == 0 && Decimal(n)[..0] == [];
    } else {
      DecimalRoundTrip(n / 10);
      assert Decimal(n)[..|Decimal(n)| - 1] == Decimal(n / 10);
    }
  }

  lemma {:induction false} LeadingZero(digits: Bytes)
    requires AllDigits(digits)
    ensures AllDigits([ZERO] + digits) && Value([ZERO] + digits) == Value(digits)
  {
    var padded := [ZERO] + digits;
    if digits == [] {
      assert padded[..0] == [];
    } else {
      LeadingZero(digits[..|digits| - 1]);
      assert padded[..|padded| - 1] == [ZERO] + digits[..|digits| - 1];
    }
  }

  lemma SuffixIsSpelledPort(text: Bytes)
    ensures ParsePortSuffix(text).Some? <==> exists port :: SpellsPort(text, port)
    ensures forall port :: SpellsPort(text, port) ==> ParsePortSuffix(text) == Some(PrintPort(port))
  {
    if ParsePortSuffix(text).Some? {
      assert SpellsPort(text, if text == [] then None else Some(Value(text[1..])));
    }
  }

  lemma PrintedPortIsSpelled(text: Bytes, port: Option<nat>)
    requires SpellsPort(text, port)
    ensures SpellsPort(PrintPort(port), port)
  {
    if port.Some? {
      DecimalRoundTrip(port.value);
      assert PrintPort(port)[1..] == Decimal(port.value);
    }
  }

  // ---------------------------------------------------------------- the assumption can be met

  function ParseBounded(s: Bytes, bound: nat): Option<nat> {
    if s == [] || !AllDigits(s) || Value(s) >= bound then None else Some(Value(s))
  }

  /** A plain lawful instance: decimal numbers, a colon before the 128-bit ones. */
  function DecimalIpText(): IpText {
    IpText(s => ParseBounded(s, 0x1_0000_0000), a => Decimal(a),
           s => if s != [] && s[0] == COLON
                then ParseBounded(s[1..], 0x1_0000_0000_0000_0000_0000_0000_0000_0000) else None,
           a => [COLON] + Decimal(a))
  }

  lemma LowerDigits(s: Bytes)
    ensures AllDigits(Lower(s)) <==> AllDigits(s)
    ensures AllDigits(s) ==> Lower(s) == s
  {
    if AllDigits(Lower(s)) {
      forall i | 0 <= i < |s| ensures Digit(s[i]) {
        assert Digit(Lower(s)[i]);
      }
    }
  }

  lemma V6DecimalIgnoresCase(s: Bytes)
    ensures DecimalIpText().v6Parse(Lower(s)) == DecimalIpText().v6Parse(s)
  {
    if s != [] {
      assert Lower(s)[1..] == Lower(s[1..]);
      LowerDigits(s[1..]);
    }
  }

  /** What is assumed of textual IP addresses is consistent. */
  lemma LawfulTextExists()
    ensures DecimalIpText().Lawful()
  {
    var ip := DecimalIpText();
    forall a: u32 ensures ip.v4Parse(ip.v4Print(a)) == Some(a) {
      DecimalRoundTrip(a);
    }
    forall a: V6 ensures ip.v6Parse(ip.v6Print(a)) == Some(a) {
      DecimalRoundTrip(a);
      assert ip.v6Print(a)[1..] == Decimal(a);
    }
    forall s: Bytes | ip.v6Parse(s).Some? ensures V6Text(s) {
      assert s[0] == COLON && forall i :: 1 <= i < |s| ==> s[1..][i - 1] == s[i];
    }
    forall s: Bytes ensures ip.v6Parse(Lower(s)) == ip.v6Parse(s) {
      V6DecimalIgnoresCase(s);
    }
  }

  // ---------------------------------------------------------------- names

  lemma {:induction false} SplitKeepsBytes(text: Bytes, separator: byte, i: nat)
    requires i < |text| && text[i] != separator
    ensures exists k :: 0 <= k < |Split(text, separator)| && text[i] in Split(text, separator)[k]
  {
    var parts, rest := Split(text, separator), Split(text[1..], separator);
    if i == 0 {
      assert text[0] in parts[0];
    } else {
      SplitKeepsBytes(text[1..], separator, i - 1);
      var k :| 0 <= k < |rest| && text[i] in rest[k];
      assert text[i] in parts[if text[0] == separator then k + 1 else k];
    }
  }

  lemma NameBytes(host: Bytes, i: nat)
    requires ValidDnsName(host) && i < |host|
    ensures Alphanumeric(host[i]) || host[i] == DASH || host[i] == DOT
  {
    if host[i] != DOT {
      SplitKeepsBytes(host, DOT, i);
    }
  }

  lemma {:induction false} SplitOfLower(text: Bytes)
    ensures |Split(Lower(text), DOT)| == |Split(text, DOT)|
    ensures forall k :: 0 <= k < |Split(text, DOT)| ==> Split(Lower(text), DOT)[k] == Lower(Split(text, DOT)[k])
  {
    if text != [] {
      SplitOfLower(text[1..]);
      assert Lower(text)[1..] == Lower(text[1..]);
      assert Lower(text)[0] == DOT <==> text[0] == DOT;
    } else {
      assert Lower([]) == [];
    }
  }

  lemma LabelsIgnoreCase(name: Bytes)
    ensures ValidLabel(Lower(name)) <==> ValidLabel(name)
  {
    if ValidLabel(Lower(name)) {
      forall i | 0 <= i < |name| ensures Alphanumeric(name[i]) || name[i] == DASH {
        assert Alphanumeric(Lower(name)[i]) || Lower(name)[i] == DASH;
      }
    }
  }

  lemma NamesIgnoreCase(host: Bytes)
    ensures ValidDnsName(Lower(host)) <==> ValidDnsName(host)
  {
    SplitOfLower(host);
    var a, b := Split(host, DOT), Split(Lower(host), DOT);
    forall k | 0 <= k < |a| ensures ValidLabel(b[k]) <==> ValidLabel(a[k]) {
      LabelsIgnoreCase(a[k]);
    }
  }

  // ---------------------------------------------------------------- names, byte by byte

  /** An ASCII letter or digit, by its code. */
  predicate LetterOrDigit(b: byte) {
    48 <= b <= 57 || 65 <= b <= 90 || 97 <= b <= 122
  }

  /** The byte may stand here: a dot only between two letters or digits. */
  predicate Joint(host: Bytes, i: nat)
    requires i < |host|
  {
    || LetterOrDigit(host[i]) || host[i] == 45
    || (host[i] == 46 && 0 < i < |host| - 1 && LetterOrDigit(host[i - 1]) && LetterOrDigit(host[i + 1]))
  }

  predicate WellJoined(host: Bytes) {
    && host != [] && LetterOrDigit(host[0]) && LetterOrDigit(host[|host| - 1])
    && forall i :: 0 <= i < |host| ==> Joint(host, i)
  }

  predicate DotFree(host: Bytes, i: int, j: int) {
    0 <= i <= j <= |host| && forall k :: i <= k < j ==> host[k] != 46
  }

  /** No more than 63 bytes in a row without a dot. */
  ghost predicate NoLongRun(host: Bytes) {
    forall i, j :: DotFree(host, i, j) ==> j - i <= 63
  }

  lemma LabelIsRun(name: Bytes)
    requires 46 !in name
    ensures ValidLabel(name) <==> WellJoined(name) && NoLongRun(name)
  {
    assert forall b: byte :: Alphanumeric(b) <==> LetterOrDigit(b);
    assert forall i :: 0 <= i < |name| ==> name[i] in name;
    assert DotFree(name, 0, |name|);
    if WellJoined(name) {
      forall i | 0 <= i < |name| ensures Alphanumeric(name[i]) || name[i] == DASH {
        assert Joint(name, i);
      }
    }
  }

  /** Where a byte may stand in a host is decided in the part it belongs to. */
  lemma JointOf(first: Bytes, rest: Bytes, i: nat)
    requires 46 !in first && i < |first| + 1 + |rest|
    ensures var host := first + [46] + rest;
      Joint(host, i) <==>
        if i < |first| then Joint(first, i)
        else if i == |first| then
          first != [] && rest != [] && LetterOrDigit(first[|first| - 1]) && LetterOrDigit(rest[0])
        else Joint(rest, i - |first| - 1)
  {
    var host, n := first + [46] + rest, |first|;
    if i < n {
      assert host[i] == first[i] && first[i] in first;
    } else if i == n {
      assert host[n] == 46;
      assert n > 0 ==> host[n - 1] == first[n - 1];
      assert rest != [] ==> host[n + 1] == rest[0];
    } else {
      assert host[i] == rest[i - n - 1];
      assert host[i - 1] == if i == n + 1 then 46 else rest[i - n - 2];
      assert i + 1 < |host| ==> host[i + 1] == rest[i - n];
    }
  }

  lemma RunsJoin(first: Bytes, rest: Bytes)
    requires 46 !in first
    ensures WellJoined(first + [46] + rest) <==> WellJoined(first) && WellJoined(rest)
  {
    var host, n := first + [46] + rest, |first|;
    forall i | 0 <= i < |host|
      ensures Joint(host, i) <==>
        if i < n then Joint(first, i)
        else if i == n then first != [] && rest != [] && LetterOrDigit(first[n - 1]) && LetterOrDigit(rest[0])
        else Joint(rest, i - n - 1)
    {
      JointOf(first, rest, i);
    }
    assert host[n] == 46;
    assert first != [] ==> host[0] == first[0];
    assert rest != [] ==> host[|host| - 1] == rest[|rest| - 1];
    hide Joint;
    if WellJoined(host) {
      assert Joint(host, n);
      forall i | 0 <= i < |rest| ensures Joint(rest, i) {
        assert Joint(host, n + 1 + i);
      }
    }
  }

  lemma LongRunsJoin(first: Bytes, rest: Bytes)
    requires 46 !in first
    ensures NoLongRun(first + [46] + rest) <==> NoLongRun(first) && NoLongRun(rest)
  {
    var host, n := first + [46] + rest, |first|;
    if NoLongRun(host) {
      forall i, j | DotFree(first, i, j) ensures j - i <= 63 {
        assert forall k :: i <= k < j ==> host[k] == first[k];
        assert DotFree(host, i, j);
      }
      forall i, j | DotFree(rest, i, j) ensures j - i <= 63 {
        assert forall k :: i <= k < j ==> host[n + 1 + k] == rest[k];
        assert DotFree(host, n + 1 + i, n + 1 + j);
      }
    }
    if NoLongRun(first) && NoLongRun(rest) {
      forall i, j | DotFree(host, i, j) ensures j - i <= 63 {
        assert host[n] == 46;
        if j <= n {
          assert forall k :: i <= k < j ==> host[k] == first[k];
          assert DotFree(first, i, j);
        } else if i > n {
          assert forall k :: i - n - 1 <= k < j - n - 1 ==> rest[k] == host[k + n + 1];
          assert DotFree(rest, i - n - 1, j - n - 1);
        }
      }
    }
  }

  predicate AllLabels(host: Bytes) {
    forall i :: 0 <= i < |Split(host, DOT)| ==> ValidLabel(Split(host, DOT)[i])
  }

  lemma FirstLabel(first: Bytes, rest: Bytes)
    requires DOT !in first
    ensures AllLabels(first) <==> ValidLabel(first)
    ensures AllLabels(first + [DOT] + rest) <==> ValidLabel(first) && AllLabels(rest)
  {
    SplitWhole(first, DOT);
    SplitAfter(first, rest, DOT);
    hide Split, ValidLabel;
    var parts, all := Split(rest, DOT), Split(first + [DOT] + rest, DOT);
    assert all[0] == first && forall i :: 0 <= i < |parts| ==> all[i + 1] == parts[i];
    assert Split(first, DOT)[0] == first;
    if AllLabels(first + [DOT] + rest) {
      assert ValidLabel(all[0]);
      forall i | 0 <= i < |parts| ensures ValidLabel(parts[i]) {
        assert ValidLabel(all[i + 1]);
      }
    }
  }

  lemma {:induction false} LabelsAreRuns(host: Bytes)
    ensures AllLabels(host) <==> WellJoined(host) && NoLongRun(host)
    decreases |host|
  {
    var n := IndexOf(host, 46);
    var first := host[..n];
    LabelIsRun(first);
    hide AllLabels, ValidLabel, WellJoined, NoLongRun, IndexOf;
    if n == |host| {
      assert first == host;
      FirstLabel(first, []);
    } else {
      var rest := host[n + 1..];
      assert host == first + [DOT] + rest;
      FirstLabel(first, rest);
      LabelsAreRuns(rest);
      RunsJoin(first, rest);
      LongRunsJoin(first, rest);
    }
  }

  /** A DNS name, byte by byte: no dash or dot next to a dot or at an end, and no run over 63 bytes. */
  lemma NameBytewise(host: Bytes)
    ensures ValidDnsName(host) <==> |host| <= 253 && WellJoined(host) && NoLongRun(host)
  {
    LabelsAreRuns(host);
    hide ValidLabel, WellJoined, NoLongRun;
  }

  lemma V4IgnoresCase(ip: IpText, text: Bytes)
    requires ip.Lawful()
    ensures ip.v4Parse(Lower(text)) == ip.v4Parse(text)
  {
    if V4Text(text) || V4Text(Lower(text)) {
      forall i | 0 <= i < |text| ensures Lower(text)[i] == text[i] {
        assert Digit(text[i]) || text[i] == DOT || Digit(Lower(text)[i]) || Lower(text)[i] == DOT;
      }
      assert Lower(text) == text;
    }
  }

  // ---------------------------------------------------------------- normal form and denotation

  /** Bytes of a host or a port: none of them is refused. */
  predicate Harmless(b: byte) {
    Alphanumeric(b) || b == DASH || b == DOT || b == COLON || b == OPEN || b == CLOSE
  }

  lemma HostBytes(ip: IpText, text: Bytes, host: Host, i: nat)
    requires ip.Lawful() && SpellsHost(ip, text, host) && i < |text|
    ensures Harmless(text[i])
    ensures !host.V6Host? ==> text[i] != COLON && text[i] != OPEN && text[i] != CLOSE
    ensures host.V6Host? && 0 < i < |text| - 1 ==> text[i] != CLOSE
  {
    if host.V6Host? {
      var inner := text[1..|text| - 1];
      assert V6Text(inner);
      if 0 < i < |text| - 1 {
        assert inner[i - 1] == text[i];
      }
    } else {
      var raw := Undot(text);
      if i < |raw| {
        assert raw[i] == text[i];
        if host.V4Host? {
          assert V4Text(raw);
        } else {
          NameBytes(raw, i);
        }
      }
    }
  }

  lemma SpellingIsNotRefused(ip: IpText, text: Bytes, cut: nat, a: Authority)
    requires ip.Lawful() && Spells(ip, text, cut, a)
    ensures !Refused(text)
  {
    forall i | 0 <= i < |text| ensures Harmless(text[i]) {
      if i < cut {
        HostBytes(ip, text[..cut], a.host, i);
      } else {
        assert text[i] == text[cut..][i - cut];
        if i > cut {
          assert text[i] == text[cut..][1..][i - cut - 1];
        }
      }
    }
  }

  lemma NoColonNoCount(s: Bytes)
    requires COLON !in s
    ensures multiset(s)[COLON] == 0
  {
  }

  lemma FirstAt(s: Bytes, b: byte, k: nat)
    requires k <= |s| && (forall i :: 0 <= i < k ==> s[i] != b) && (k < |s| ==> s[k] == b)
    ensures IndexOf(s, b) == k
  {
  }

  /** A spelling without brackets holds no bracket, and its only colon is where the host ends. */
  lemma NamedSpellingCuts(ip: IpText, text: Bytes, cut: nat, a: Authority)
    requires ip.Lawful() && Spells(ip, text, cut, a) && !a.host.V6Host?
    ensures OPEN !in text && CLOSE !in text && multiset(text)[COLON] <= 1
    ensures IndexOf(text, COLON) == cut
  {
    var host, port := text[..cut], text[cut..];
    forall i | 0 <= i < |host| ensures host[i] != COLON && host[i] != OPEN && host[i] != CLOSE {
      HostBytes(ip, host, a.host, i);
    }
    hide SpellsHost, Lower;
    forall i | 0 <= i < |port| ensures port[i] != OPEN && port[i] != CLOSE && (i > 0 ==> port[i] != COLON) {
      if i > 0 {
        assert port[1..][i - 1] == port[i];
      }
    }
    assert text == host + port;
    NoColonNoCount(host);
    if port != [] {
      NoColonNoCount(port[1..]);
      assert port == [port[0]] + port[1..];
    }
    FirstAt(text, COLON, cut);
  }

  lemma NamedSpellingNormalizes(ip: IpText, text: Bytes, cut: nat, a: Authority)
    requires ip.Lawful() && Spells(ip, text, cut, a) && !a.host.V6Host?
    ensures NormalizeAuthority(ip, text) == Some(PrintAuthority(ip, a))
  {
    SpellingIsNotRefused(ip, text, cut, a);
    SuffixIsSpelledPort(text[cut..]);
    NamedSpellingCuts(ip, text, cut, a);
    RawHostNormalizes(ip, text[..cut], a.host);
    assert text[0] in text;
    hide Refused, IndexOf, ParsePortSuffix, NormalizeRawHost, SpellsHost, SpellsPort, PrintHost, PrintPort, Undot;
  }

  lemma RawHostNormalizes(ip: IpText, text: Bytes, host: Host)
    requires ip.Lawful() && SpellsHost(ip, text, host) && !host.V6Host?
    ensures NormalizeRawHost(ip, Undot(text)) == Some(PrintHost(ip, host))
  {
    var raw := Undot(text);
    if host.NamedHost? && ip.v6Parse(raw).Some? {
      assert V6Text(raw);
      var i :| 0 <= i < |raw| && raw[i] == COLON;
      NameBytes(raw, i);
    }
  }

  lemma BracketedSpellingNormalizes(ip: IpText, text: Bytes, cut: nat, a: Authority)
    requires ip.Lawful() && Spells(ip, text, cut, a) && a.host.V6Host?
    ensures NormalizeAuthority(ip, text) == Some(PrintAuthority(ip, a))
  {
    SpellingIsNotRefused(ip, text, cut, a);
    SuffixIsSpelledPort(text[cut..]);
    var host, bracketed := text[..cut], text[1..];
    forall i | 0 <= i < cut - 2 ensures bracketed[i] != CLOSE {
      HostBytes(ip, host, a.host, i + 1);
    }
    FirstAt(bracketed, CLOSE, cut - 2);
    InsideBrackets(text, cut);
    hide Refused, IndexOf, ParsePortSuffix, SpellsPort, Harmless;
  }

  lemma InsideBrackets(text: Bytes, cut: nat)
    requires 2 <= cut <= |text|
    ensures text[1..][..cut - 2] == text[..cut][1..cut - 1]
    ensures text[1..][cut - 1..] == text[cut..]
  {
  }

  /** A spelling normalises to the printout of what it denotes. */
  lemma SpellingNormalizes(ip: IpText, text: Bytes, cut: nat, a: Authority)
    requires ip.Lawful() && Spells(ip, text, cut, a)
    ensures NormalizeAuthority(ip, text) == Some(PrintAuthority(ip, a))
  {
    if a.host.V6Host? {
      BracketedSpellingNormalizes(ip, text, cut, a);
    } else {
      NamedSpellingNormalizes(ip, text, cut, a);
    }
  }

  lemma AcceptedBracketed(ip: IpText, bracketed: Bytes) returns (cut: nat, a: Authority)
    requires NormalizeBracketed(ip, bracketed).Some?
    ensures Spells(ip, [OPEN] + bracketed, cut, a)
  {
    hide SpellsPort, ParsePortSuffix, IndexOf, PrintPort;
    var close := IndexOf(bracketed, CLOSE);
    cut := close + 2;
    SuffixIsSpelledPort(bracketed[close + 1..]);
    var port :| SpellsPort(bracketed[close + 1..], port);
    a := Authority(V6Host(ip.v6Parse(bracketed[..close]).value), port);
    BracketedSpells(ip, bracketed, close, a);
  }

  lemma BracketedSpells(ip: IpText, bracketed: Bytes, close: nat, a: Authority)
    requires close < |bracketed| && bracketed[close] == CLOSE && a.host.V6Host?
    requires ip.v6Parse(bracketed[..close]) == Some(a.host.v6) && SpellsPort(bracketed[close + 1..], a.port)
    ensures Spells(ip, [OPEN] + bracketed, close + 2, a)
  {
    hide SpellsPort;
    var text := [OPEN] + bracketed;
    assert text[1..] == bracketed;
    InsideBrackets(text, close + 2);
  }

  lemma AcceptedNamed(ip: IpText, text: Bytes) returns (cut: nat, a: Authority)
    requires NormalizeNamed(ip, text).Some?
    ensures Spells(ip, text, cut, a)
  {
    cut := IndexOf(text, COLON);
    SuffixIsSpelledPort(text[cut..]);
    hide SpellsPort, ParsePortSuffix, Split, ValidLabel;
    var port :| SpellsPort(text[cut..], port);
    var raw := Undot(text[..cut]);
    a := Authority(if ip.v4Parse(raw).Some? then V4Host(ip.v4Parse(raw).value) else NamedHost(Lower(raw)), port);
  }

  /** Everything the source accepts is a spelling of some authority. */
  lemma AcceptedIsSpelling(ip: IpText, text: Bytes) returns (cut: nat, a: Authority)
    requires NormalizeAuthority(ip, text).Some?
    ensures Spells(ip, text, cut, a)
  {
    hide Spells;
    if text[0] == OPEN {
      cut, a := AcceptedBracketed(ip, text[1..]);
      assert [OPEN] + text[1..] == text;
    } else {
      cut, a := AcceptedNamed(ip, text);
    }
  }

  lemma LoweredName(ip: IpText, name: Bytes)
    requires ip.Lawful() && Dotless(name) && ip.v4Parse(name).None? && ValidDnsName(name)
    ensures SpellsHost(ip, Lower(name), NamedHost(Lower(name)))
  {
    var lower := Lower(name);
    NamesIgnoreCase(name);
    V4IgnoresCase(ip, name);
    assert lower[|lower| - 1] != DOT;
    assert Lower(lower) == lower;
  }

  /** The normal form is itself a spelling of what it stands for. */
  lemma PrintoutIsSpelling(ip: IpText, text: Bytes, cut: nat, a: Authority)
    requires ip.Lawful() && Spells(ip, text, cut, a)
    ensures Spells(ip, PrintAuthority(ip, a), |PrintHost(ip, a.host)|, a)
  {
    PrintedPortIsSpelled(text[cut..], a.port);
    var printed, host := PrintAuthority(ip, a), PrintHost(ip, a.host);
    assert printed[..|host|] == host && printed[|host|..] == PrintPort(a.port);
    match a.host {
      case V4Host(v4) => assert V4Text(host);
      case V6Host(v6) => assert host[1..|host| - 1] == ip.v6Print(v6);
      case NamedHost(_) => LoweredName(ip, Undot(text[..cut]));
    }
  }

  lemma PortSpellsOne(text: Bytes, p: Option<nat>, q: Option<nat>)
    requires SpellsPort(text, p) && SpellsPort(text, q)
    ensures p == q
  {
  }

  /** Where a spelling's host ends is decided by the text. */
  function HostEnd(text: Bytes): nat {
    if text != [] && text[0] == OPEN then IndexOf(text, CLOSE) + 1 else IndexOf(text, COLON)
  }

  lemma SpellingEndsHost(ip: IpText, text: Bytes, cut: nat, a: Authority)
    requires ip.Lawful() && Spells(ip, text, cut, a)
    ensures cut == HostEnd(text)
    ensures a.host.V6Host? <==> text[0] == OPEN
  {
    var host := text[..cut];
    assert cut > 0;
    HostBytes(ip, host, a.host, 0);
    if a.host.V6Host? {
      forall i | 0 <= i < cut - 1 ensures text[i] != CLOSE {
        HostBytes(ip, host, a.host, i);
      }
      FirstAt(text, CLOSE, cut - 1);
    } else {
      forall i | 0 <= i < cut ensures text[i] != COLON {
        HostBytes(ip, host, a.host, i);
      }
      assert cut < |text| ==> text[cut..][0] == text[cut];
      FirstAt(text, COLON, cut);
    }
  }

  lemma DenotesOne(ip: IpText, text: Bytes, c: nat, a: Authority, d: nat, b: Authority)
    requires ip.Lawful() && Spells(ip, text, c, a) && Spells(ip, text, d, b)
    ensures c == d && a == b
  {
    SpellingEndsHost(ip, text, c, a);
    SpellingEndsHost(ip, text, d, b);
    PortSpellsOne(text[c..], a.port, b.port);
  }

  ghost predicate Denotes(ip: IpText, text: Bytes, a: Authority) {
    exists cut: nat :: Spells(ip, text, cut, a)
  }

  /** The normal form is exactly the printout of the one authority a text denotes. */
  lemma NormalFormIsDenotation(ip: IpText, text: Bytes, normal: Bytes)
    requires ip.Lawful()
    ensures NormalizeAuthority(ip, text) == Some(normal)
            <==> exists a :: Denotes(ip, text, a) && normal == PrintAuthority(ip, a)
  {
    if NormalizeAuthority(ip, text) == Some(normal) {
      var cut, a := AcceptedIsSpelling(ip, text);
      SpellingNormalizes(ip, text, cut, a);
      assert Denotes(ip, text, a);
    }
    if a :| Denotes(ip, text, a) && normal == PrintAuthority(ip, a) {
      var cut: nat :| Spells(ip, text, cut, a);
      SpellingNormalizes(ip, text, cut, a);
    }
  }

  /** Two accepted texts have one normal form exactly when they denote one authority. */
  lemma SameNormalFormIffSameAuthority(ip: IpText, s: Bytes, t: Bytes)
    requires ip.Lawful() && NormalizeAuthority(ip, s).Some? && NormalizeAuthority(ip, t).Some?
    ensures NormalizeAuthority(ip, s) == NormalizeAuthority(ip, t)
            <==> exists a :: Denotes(ip, s, a) && Denotes(ip, t, a)
  {
    var c, a := AcceptedIsSpelling(ip, s);
    var d, b := AcceptedIsSpelling(ip, t);
    SpellingNormalizes(ip, s, c, a);
    SpellingNormalizes(ip, t, d, b);
    assert Denotes(ip, s, a) && Denotes(ip, t, b);
    if PrintAuthority(ip, a) == PrintAuthority(ip, b) {
      PrintoutIsSpelling(ip, s, c, a);
      PrintoutIsSpelling(ip, t, d, b);
      DenotesOne(ip, PrintAuthority(ip, a), |PrintHost(ip, a.host)|, a, |PrintHost(ip, b.host)|, b);
    }
    if x :| Denotes(ip, s, x) && Denotes(ip, t, x) {
      var e: nat :| Spells(ip, s, e, x);
      var f: nat :| Spells(ip, t, f, x);
      DenotesOne(ip, s, c, a, e, x);
      DenotesOne(ip, t, d, b, f, x);
    }
  }

  lemma NormalizationIsIdempotent(ip: IpText, text: Bytes)
    requires ip.Lawful() && NormalizeAuthority(ip, text).Some?
    ensures NormalizeAuthority(ip, NormalizeAuthority(ip, text).value) == NormalizeAuthority(ip, text)
  {
    var cut, a := AcceptedIsSpelling(ip, text);
    SpellingNormalizes(ip, text, cut, a);
    PrintoutIsSpelling(ip, text, cut, a);
    SpellingNormalizes(ip, PrintAuthority(ip, a), |PrintHost(ip, a.host)|, a);
  }

  // ---------------------------------------------------------------- spellings that must not matter

  lemma LowerUndots(text: Bytes)
    ensures Undot(Lower(text)) == Lower(Undot(text))
    ensures Dotless(Lower(text)) <==> Dotless(text)
    ensures Lower(Lower(text)) == Lower(text)
  {
    if text != [] {
      assert Lower(text)[|text| - 1] == DOT <==> text[|text| - 1] == DOT;
    }
  }

  lemma BracketsIgnoreCase(ip: IpText, text: Bytes, host: Host)
    requires ip.Lawful() && host.V6Host?
    ensures SpellsHost(ip, Lower(text), host) <==> SpellsHost(ip, text, host)
  {
    if |text| >= 2 {
      var lower := Lower(text);
      assert lower[0] == OPEN <==> text[0] == OPEN;
      assert lower[|text| - 1] == CLOSE <==> text[|text| - 1] == CLOSE;
      assert lower[1..|text| - 1] == Lower(text[1..|text| - 1]);
    }
  }

  lemma HostSpellingIgnoresCase(ip: IpText, text: Bytes, host: Host)
    requires ip.Lawful()
    ensures SpellsHost(ip, Lower(text), host) <==> SpellsHost(ip, text, host)
  {
    if host.V6Host? {
      BracketsIgnoreCase(ip, text, host);
    } else {
      LowerUndots(text);
      LowerUndots(Undot(text));
      NamesIgnoreCase(Undot(text));
      V4IgnoresCase(ip, Undot(text));
    }
  }

  lemma PortSpellingIgnoresCase(text: Bytes, port: Option<nat>)
    ensures SpellsPort(Lower(text), port) <==> SpellsPort(text, port)
  {
    if |text| > 1 {
      var a, b := text[1..], Lower(text)[1..];
      if AllDigits(b) {
        forall i | 0 <= i < |a| ensures a[i] == b[i] {
          assert Digit(b[i]);
        }
      }
      assert AllDigits(a) || AllDigits(b) ==> a == b;
    }
  }

  lemma SpellingIgnoresCase(ip: IpText, text: Bytes, cut: nat, a: Authority)
    requires ip.Lawful()
    ensures Spells(ip, Lower(text), cut, a) <==> Spells(ip, text, cut, a)
  {
    if cut <= |text| {
      HostSpellingIgnoresCase(ip, text[..cut], a.host);
      PortSpellingIgnoresCase(text[cut..], a.port);
      assert Lower(text)[..cut] == Lower(text[..cut]) && Lower(text)[cut..] == Lower(text[cut..]);
    }
  }

  /** ASCII case never matters, for accepted and for refused texts. */
  lemma NormalizationIgnoresCase(ip: IpText, text: Bytes)
    requires ip.Lawful()
    ensures NormalizeAuthority(ip, Lower(text)) == NormalizeAuthority(ip, text)
  {
    if NormalizeAuthority(ip, text).Some? {
      var cut, a := AcceptedIsSpelling(ip, text);
      SpellingIgnoresCase(ip, text, cut, a);
      SpellingNormalizes(ip, text, cut, a);
      SpellingNormalizes(ip, Lower(text), cut, a);
    } else if NormalizeAuthority(ip, Lower(text)).Some? {
      var cut, a := AcceptedIsSpelling(ip, Lower(text));
      SpellingIgnoresCase(ip, text, cut, a);
      SpellingNormalizes(ip, text, cut, a);
    }
  }

  /** A dot or a digit put anywhere changes none of the tests on the text as a whole. */
  lemma Inserting(before: Bytes, b: byte, after: Bytes)
    requires (b == DOT || b == ZERO) && before != []
    ensures var longer, text := before + [b] + after, before + after;
      && (Refused(longer) <==> Refused(text))
      && (OPEN in longer <==> OPEN in text) && (CLOSE in longer <==> CLOSE in text)
      && multiset(longer)[COLON] == multiset(text)[COLON]
  {
    var longer, text := before + [b] + after, before + after;
    forall i | 0 <= i < |text| ensures longer[if i < |before| then i else i + 1] == text[i] {
    }
    forall j | 0 <= j < |longer| && j != |before| ensures text[if j < |before| then j else j - 1] == longer[j] {
    }
    assert longer[|before|] == b;
    assert multiset(longer) == multiset(text) + multiset{b};
    assert Refused(longer) ==> Refused(text) by {
      if Refused(longer) {
        var j :| 0 <= j < |longer| && (SpaceOrControl(longer[j]) || Special(longer[j]));
        assert j != |before|;
        assert text[if j < |before| then j else j - 1] == longer[j];
      }
    }
    assert Refused(text) ==> Refused(longer) by {
      if Refused(text) {
        var i :| 0 <= i < |text| && (SpaceOrControl(text[i]) || Special(text[i]));
        assert longer[if i < |before| then i else i + 1] == text[i];
      }
    }
    assert forall x :: x in longer <==> x in multiset(longer);
    assert forall x :: x in text <==> x in multiset(text);
  }

  lemma HostCut(host: Bytes, suffix: Bytes)
    requires COLON !in host && (suffix == [] || suffix[0] == COLON)
    ensures var text := host + suffix;
      IndexOf(text, COLON) == |host| && text[..|host|] == host && text[|host|..] == suffix
  {
    FirstAt(host + suffix, COLON, |host|);
  }

  lemma UndotDotted(host: Bytes)
    ensures Dotless(host) ==> Undot(host + [DOT]) == host == Undot(host)
    ensures !Dotless(host) ==> !Dotless(Undot(host + [DOT]))
  {
    assert (host + [DOT])[..|host|] == host;
  }

  /** One dot at the end of a host that has none changes nothing, whatever follows the host. */
  lemma OneTrailingDotIsIgnored(ip: IpText, host: Bytes, suffix: Bytes)
    requires Dotless(host) && host[0] != OPEN && COLON !in host
    requires suffix == [] || suffix[0] == COLON
    ensures NormalizeAuthority(ip, host + [DOT] + suffix) == NormalizeAuthority(ip, host + suffix)
  {
    hide Refused, NormalizeNamed, ParsePortSuffix, IndexOf, Undot;
    Inserting(host, DOT, suffix);
    HostCut(host, suffix);
    HostCut(host + [DOT], suffix);
    UndotDotted(host);
    SamePieces(ip, host + [DOT] + suffix, host + suffix);
    assert (host + suffix)[0] == (host + [DOT] + suffix)[0] == host[0];
  }

  /** After a closing bracket a dot is no port, so the dotted text is refused. */
  lemma BracketedDotIsRefused(ip: IpText, host: Bytes, suffix: Bytes)
    requires host != [] && host[0] == OPEN && CLOSE in host
    ensures NormalizeAuthority(ip, host + [DOT] + suffix) == None
  {
    var text, bracketed := host + [DOT] + suffix, host[1..] + [DOT] + suffix;
    assert text[0] == OPEN && text[1..] == bracketed;
    var i :| 0 < i < |host| && host[i] == CLOSE;
    assert host[1..][i - 1] == CLOSE;
    var close := IndexOf(host[1..], CLOSE);
    FirstAt(bracketed, CLOSE, close);
    DotIsNoPort(host[1..][close + 1..], suffix);
    assert bracketed[close + 1..] == host[1..][close + 1..] + [DOT] + suffix;
    hide ParsePortSuffix, IndexOf;
  }

  lemma DotIsNoPort(before: Bytes, after: Bytes)
    ensures ParsePortSuffix(before + [DOT] + after) == None
  {
    var text := before + [DOT] + after;
    assert text[|before|] == DOT;
    if before != [] {
      assert text[1..][|before| - 1] == DOT;
    }
  }

  /** Without any closing bracket an opening one is refused. */
  lemma UnclosedIsRefused(ip: IpText, text: Bytes)
    requires text != [] && text[0] == OPEN && CLOSE !in text
    ensures NormalizeAuthority(ip, text) == None
  {
    assert forall i :: 0 <= i < |text[1..]| ==> text[1..][i] == text[i + 1] && text[i + 1] in text;
    FirstAt(text[1..], CLOSE, |text[1..]|);
    hide IndexOf;
  }

  /** A host that is empty or ends in a dot is refused once one more dot follows it. */
  lemma SecondDotIsRefused(ip: IpText, host: Bytes, suffix: Bytes)
    requires !Dotless(host) && COLON !in host && (host == [] || host[0] != OPEN)
    requires suffix == [] || suffix[0] == COLON
    ensures NormalizeAuthority(ip, host + [DOT] + suffix) == None
  {
    HostCut(host + [DOT], suffix);
    UndotDotted(host);
    assert (host + [DOT] + suffix)[0] == if host == [] then DOT else host[0];
    hide Refused, ParsePortSuffix, IndexOf, Undot, Dotless;
  }

  /** The host part of a text: bracketed, or up to the first colon. */
  predicate HostPart(host: Bytes, suffix: Bytes) {
    && (suffix == [] || suffix[0] == COLON)
    && if host != [] && host[0] == OPEN then CLOSE in host || CLOSE !in suffix else COLON !in host
  }

  /**
   * A dot after the host is ignored exactly when the host is an unbracketed one without a dot at its
   * end, or when the text without the dot is refused as well.
   */
  lemma TrailingDotIgnoredIff(ip: IpText, host: Bytes, suffix: Bytes)
    requires HostPart(host, suffix)
    ensures NormalizeAuthority(ip, host + [DOT] + suffix) == NormalizeAuthority(ip, host + suffix)
            <==> (Dotless(host) && host[0] != OPEN) || NormalizeAuthority(ip, host + suffix) == None
  {
    hide NormalizeAuthority;
    if host != [] && host[0] == OPEN {
      if CLOSE in host {
        BracketedDotIsRefused(ip, host, suffix);
      } else {
        UnclosedIsRefused(ip, host + suffix);
        UnclosedIsRefused(ip, host + [DOT] + suffix);
      }
    } else if Dotless(host) {
      OneTrailingDotIsIgnored(ip, host, suffix);
    } else {
      SecondDotIsRefused(ip, host, suffix);
    }
  }

  /** A bracketed address is accepted without a dot after it and refused with one. */
  lemma BracketedDotExample()
    ensures var host := [OPEN, COLON, '7' as int, CLOSE];
      && NormalizeAuthority(DecimalIpText(), host) == Some(host)
      && NormalizeAuthority(DecimalIpText(), host + [DOT]) == None
  {
    var ip, host := DecimalIpText(), [OPEN, COLON, '7' as int, CLOSE];
    var seven := Authority(V6Host(7), None);
    LawfulTextExists();
    SevenIsSpelled();
    hide DecimalIpText, Spells, NormalizeAuthority, PrintAuthority, IpText.Lawful;
    SpellingNormalizes(ip, host, 4, seven);
    BracketedDotIsRefused(ip, host, []);
    assert host + [DOT] + [] == host + [DOT];
  }

  lemma SevenIsSpelled()
    ensures var host := [OPEN, COLON, '7' as int, CLOSE];
      && Spells(DecimalIpText(), host, 4, Authority(V6Host(7), None))
      && PrintAuthority(DecimalIpText(), Authority(V6Host(7), None)) == host
  {
    var ip, bracketed := DecimalIpText(), [COLON, '7' as int, CLOSE];
    assert Decimal(7) == ['7' as int] && bracketed[..2] == [COLON] + Decimal(7);
    LawfulTextExists();
    assert ip.v6Parse(ip.v6Print(7)) == Some(7);
    assert bracketed[3..] == [] && [OPEN] + bracketed == [OPEN, COLON, '7' as int, CLOSE];
    BracketedSpells(ip, bracketed, 2, Authority(V6Host(7), None));
  }

  lemma PortSuffixIgnoresZero(before: Bytes, digits: Bytes)
    requires digits != [] && AllDigits(digits)
    ensures ParsePortSuffix(before + [COLON, ZERO] + digits) == ParsePortSuffix(before + [COLON] + digits)
  {
    var long, short := before + [COLON, ZERO] + digits, before + [COLON] + digits;
    if before == [] {
      LeadingZero(digits);
      assert long[1..] == [ZERO] + digits && short[1..] == digits;
    } else {
      assert long[1..][|before| - 1] == COLON && short[1..][|before| - 1] == COLON;
      assert !AllDigits(long[1..]) && !AllDigits(short[1..]);
    }
  }

  lemma ColonBefore(before: Bytes, after: Bytes)
    requires COLON in before
    ensures multiset(before + [COLON] + after)[COLON] > 1
  {
    assert multiset(before)[COLON] > 0;
  }

  /** Zeros before a port's digits never matter. */
  lemma LeadingZerosAreIgnored(ip: IpText, before: Bytes, digits: Bytes)
    requires digits != [] && AllDigits(digits)
    ensures NormalizeAuthority(ip, before + [COLON, ZERO] + digits)
            == NormalizeAuthority(ip, before + [COLON] + digits)
  {
    var long, short := before + [COLON, ZERO] + digits, before + [COLON] + digits;
    assert long == (before + [COLON]) + [ZERO] + digits;
    Inserting(before + [COLON], ZERO, digits);
    if before != [] && before[0] == OPEN {
      BracketedIgnoresZero(ip, before[1..], digits);
      assert long[1..] == before[1..] + [COLON, ZERO] + digits;
      assert short[1..] == before[1..] + [COLON] + digits;
    } else {
      NamedIgnoresZero(ip, before, digits);
    }
    assert long[0] == short[0] == (before + [COLON])[0];
    hide NormalizeBracketed, NormalizeNamed, Refused;
  }

  lemma BracketedIgnoresZero(ip: IpText, before: Bytes, digits: Bytes)
    requires digits != [] && AllDigits(digits)
    ensures NormalizeBracketed(ip, before + [COLON, ZERO] + digits)
            == NormalizeBracketed(ip, before + [COLON] + digits)
  {
    hide ParsePortSuffix;
    var long, short := before + [COLON, ZERO] + digits, before + [COLON] + digits;
    var close := IndexOf(before, CLOSE);
    if close < |before| {
      FirstAt(long, CLOSE, close);
      FirstAt(short, CLOSE, close);
      var rest := before[close + 1..];
      PortSuffixIgnoresZero(rest, digits);
      assert long[..close] == before[..close] == short[..close];
      assert long[close + 1..] == rest + [COLON, ZERO] + digits;
      assert short[close + 1..] == rest + [COLON] + digits;
    } else {
      FirstAt(long, CLOSE, |long|);
      FirstAt(short, CLOSE, |short|);
    }
  }

  lemma CutAtColon(before: Bytes, after: Bytes)
    requires COLON !in before
    ensures var text := before + [COLON] + after;
      && IndexOf(text, COLON) == |before|
      && text[..|before|] == before && text[|before|..] == [COLON] + after
  {
    FirstAt(before + [COLON] + after, COLON, |before|);
  }

  lemma NamedIgnoresZero(ip: IpText, before: Bytes, digits: Bytes)
    requires digits != [] && AllDigits(digits)
    ensures NormalizeNamed(ip, before + [COLON, ZERO] + digits)
            == NormalizeNamed(ip, before + [COLON] + digits)
  {
    hide *;
    assert before + [COLON, ZERO] + digits == before + [COLON] + ([ZERO] + digits);
    if COLON in before {
      ColonBefore(before, [ZERO] + digits);
      ColonBefore(before, digits);
      ManyColons(ip, before + [COLON] + ([ZERO] + digits));
      ManyColons(ip, before + [COLON] + digits);
    } else {
      NamedPortIgnoresZero(ip, before, digits);
    }
  }

  lemma NamedPortIgnoresZero(ip: IpText, before: Bytes, digits: Bytes)
    requires digits != [] && AllDigits(digits) && COLON !in before
    ensures NormalizeNamed(ip, before + [COLON] + ([ZERO] + digits))
            == NormalizeNamed(ip, before + [COLON] + digits)
  {
    hide *;
    var long, short := before + [COLON] + ([ZERO] + digits), before + [COLON] + digits;
    assert long == (before + [COLON]) + [ZERO] + digits;
    Inserting(before + [COLON], ZERO, digits);
    CutAtColon(before, [ZERO] + digits);
    CutAtColon(before, digits);
    PortSuffixIgnoresZero([], digits);
    assert [] + [COLON, ZERO] + digits == [COLON] + ([ZERO] + digits);
    assert [] + [COLON] + digits == [COLON] + digits;
    SamePieces(ip, long, short);
  }

  lemma ManyColons(ip: IpText, text: Bytes)
    requires multiset(text)[COLON] > 1
    ensures NormalizeNamed(ip, text) == None
  {
  }

  lemma SamePieces(ip: IpText, s: Bytes, t: Bytes)
    requires (OPEN in s <==> OPEN in t) && (CLOSE in s <==> CLOSE in t)
    requires multiset(s)[COLON] == multiset(t)[COLON]
    requires Undot(s[..IndexOf(s, COLON)]) == Undot(t[..IndexOf(t, COLON)])
    requires ParsePortSuffix(s[IndexOf(s, COLON)..]) == ParsePortSuffix(t[IndexOf(t, COLON)..])
    ensures NormalizeNamed(ip, s) == NormalizeNamed(ip, t)
  {
  }

  // ---------------------------------------------------------------- origins

  const HTTP: Bytes := ['h' as int, 't' as int, 't' as int, 'p' as int, ':' as int, '/' as int, '/' as int]
  const HTTPS: Bytes :=
    ['h' as int, 't' as int, 't' as int, 'p' as int, 's' as int, ':' as int, '/' as int, '/' as int]

  /** The two schemes, letter by letter. */
  lemma SchemesAreHttp()
    ensures |HTTP| == 7 && forall i :: 0 <= i < 7 ==> HTTP[i] == "http://"[i] as int
    ensures |HTTPS| == 8 && forall i :: 0 <= i < 8 ==> HTTPS[i] == "https://"[i] as int
  {
  }

  predicate HasPrefix(text: Bytes, prefix: Bytes) {
    |prefix| <= |text| && text[..|prefix|] == prefix
  }

  function NormalizeOrigin(ip: IpText, origin: Bytes): Option<Bytes> {
    if HasSpaceOrControl(origin) then None
    else
      var lower := Lower(origin);
      if HasPrefix(lower, HTTP) then
        var authority :- NormalizeAuthority(ip, lower[|HTTP|..]);
        Some(HTTP + authority)
      else if HasPrefix(lower, HTTPS) then
        var authority :- NormalizeAuthority(ip, lower[|HTTPS|..]);
        Some(HTTPS + authority)
      else None
  }

  /** An origin is its scheme, in any case, and a host header: both are normalised by one function. */
  lemma OriginUsesHostNormalization(ip: IpText, scheme: Bytes, authority: Bytes)
    requires ip.Lawful()
    requires Lower(scheme) == HTTP || Lower(scheme) == HTTPS
    ensures var normal := NormalizeAuthority(ip, authority);
      NormalizeOrigin(ip, scheme + authority) == if normal.Some? then Some(Lower(scheme) + normal.value) else None
  {
    var lower := Lower(scheme + authority);
    LowerSplits(scheme, authority);
    NormalizationIgnoresCase(ip, authority);
    SchemesExclude(lower, Lower(scheme));
    SpaceIsInAuthority(ip, scheme, authority);
    hide NormalizeAuthority, HasSpaceOrControl, HasPrefix, Lower;
  }

  lemma LowerSplits(x: Bytes, y: Bytes)
    ensures Lower(x + y)[..|x|] == Lower(x) && Lower(x + y)[|x|..] == Lower(y)
  {
    assert Lower(x + y) == Lower(x) + Lower(y);
  }

  lemma SchemeHasNoSpace(scheme: Bytes)
    requires Lower(scheme) == HTTP || Lower(scheme) == HTTPS
    ensures !HasSpaceOrControl(scheme)
  {
    forall i | 0 <= i < |scheme| ensures !SpaceOrControl(scheme[i]) {
      assert Lower(scheme)[i] == LowerByte(scheme[i]);
    }
  }

  lemma SpaceIsInAuthority(ip: IpText, scheme: Bytes, authority: Bytes)
    requires Lower(scheme) == HTTP || Lower(scheme) == HTTPS
    ensures HasSpaceOrControl(scheme + authority) ==> NormalizeAuthority(ip, authority) == None
  {
    SchemeHasNoSpace(scheme);
    var origin := scheme + authority;
    if HasSpaceOrControl(origin) {
      var i :| 0 <= i < |origin| && SpaceOrControl(origin[i]);
      assert i >= |scheme|;
      assert authority[i - |scheme|] == origin[i];
    }
  }

  lemma SchemesExclude(text: Bytes, scheme: Bytes)
    requires HasPrefix(text, scheme) && (scheme == HTTP || scheme == HTTPS)
    ensures HasPrefix(text, HTTP) <==> scheme == HTTP
    ensures HasPrefix(text, HTTPS) <==> scheme == HTTPS
  {
    assert HTTP[4] == COLON && HTTPS[4] == 's' as int;
    assert text[..|scheme|][4] == text[4];
    if HasPrefix(text, HTTP) { assert text[..|HTTP|][4] == text[4]; }
    if HasPrefix(text, HTTPS) { assert text[..|HTTPS|][4] == text[4]; }
  }

  /** Every accepted origin has the shape the previous lemma speaks of. */
  lemma AcceptedOriginSplits(ip: IpText, origin: Bytes) returns (scheme: Bytes, authority: Bytes)
    requires NormalizeOrigin(ip, origin).Some?
    ensures origin == scheme + authority
    ensures Lower(scheme) == HTTP || Lower(scheme) == HTTPS
  {
    var lower := Lower(origin);
    var n := if HasPrefix(lower, HTTP) then |HTTP| else |HTTPS|;
    scheme, authority := origin[..n], origin[n..];
    assert Lower(scheme) == lower[..n];
  }

  lemma OriginNormalizationIsIdempotent(ip: IpText, origin: Bytes)
    requires ip.Lawful() && NormalizeOrigin(ip, origin).Some?
    ensures NormalizeOrigin(ip, NormalizeOrigin(ip, origin).value) == NormalizeOrigin(ip, origin)
  {
    var scheme, authority := AcceptedOriginSplits(ip, origin);
    OriginUsesHostNormalization(ip, scheme, authority);
    NormalizationIsIdempotent(ip, authority);
    assert Lower(Lower(scheme)) == Lower(scheme);
    OriginUsesHostNormalization(ip, Lower(scheme), NormalizeAuthority(ip, authority).value);
  }

  // ---------------------------------------------------------------- the policy

  datatype Policy = Policy(allowedHosts: set<Bytes>, allowedOrigins: set<Bytes>, allowMissingOrigin: bool)

  datatype PolicyError = InvalidHost | InvalidOriginConfigured

  datatype RequestError =
    | MissingHost
    | HostNotAllowed(received: Bytes)
    | InvalidOrigin(received: Bytes)
    | OriginNotAllowed(received: Bytes)
    | OriginRequired

  /** Collecting into a set stops at the first text without a normal form. */
  function Collect(normalize: Bytes -> Option<Bytes>, texts: seq<Bytes>): (all: Option<set<Bytes>>)
    ensures all.Some? <==> forall i :: 0 <= i < |texts| ==> normalize(texts[i]).Some?
    ensures all.Some? ==>
      forall n :: n in all.value <==> exists i :: 0 <= i < |texts| && normalize(texts[i]) == Some(n)
  {
    if texts == [] then Some({})
    else
      var normal :- normalize(texts[0]);
      var rest :- Collect(normalize, texts[1..]);
      Some({normal} + rest)
  }

  function NewPolicy(ip: IpText, hosts: seq<Bytes>, origins: seq<Bytes>, allowMissingOrigin: bool)
    : Result<Policy, PolicyError>
  {
    match Collect(text => NormalizeAuthority(ip, text), hosts)
    case None => Err(InvalidHost)
    case Some(allowedHosts) =>
      match Collect(text => NormalizeOrigin(ip, text), origins)
      case None => Err(InvalidOriginConfigured)
      case Some(allowedOrigins) => Ok(Policy(allowedHosts, allowedOrigins, allowMissingOrigin))
  }

  function ValidateRequest(ip: IpText, policy: Policy, host: Option<Bytes>, origin: Option<Bytes>)
    : Result<Unit, RequestError>
  {
    var normalHost := if host.Some? then NormalizeAuthority(ip, host.value) else None;
    if normalHost.None? then Err(MissingHost)
    else if normalHost.value !in policy.allowedHosts then Err(HostNotAllowed(normalHost.value))
    else
      match origin
      case None => if policy.allowMissingOrigin then Ok(Unit) else Err(OriginRequired)
      case Some(raw) =>
        var normal := NormalizeOrigin(ip, raw);
        if normal.None? then Err(InvalidOrigin(raw))
        else if normal.value in policy.allowedOrigins then Ok(Unit)
        else Err(OriginNotAllowed(normal.value))
  }

  /** The host names an authority that some configured host names. */
  ghost predicate HostMatches(ip: IpText, hosts: seq<Bytes>, host: Bytes) {
    exists i, a :: 0 <= i < |hosts| && Denotes(ip, hosts[i], a) && Denotes(ip, host, a)
  }

  predicate OriginMatches(ip: IpText, origins: seq<Bytes>, origin: Bytes) {
    NormalizeOrigin(ip, origin).Some? &&
    exists i :: 0 <= i < |origins| && NormalizeOrigin(ip, origins[i]) == NormalizeOrigin(ip, origin)
  }

  /** A refused request is refused for the first thing wrong with it, host before origin. */
  lemma RequestErrors(ip: IpText, policy: Policy, host: Option<Bytes>, origin: Option<Bytes>)
    requires ValidateRequest(ip, policy, host, origin).Err?
    ensures ValidateRequest(ip, policy, host, origin).error ==
      if host == None || NormalizeAuthority(ip, host.value) == None then MissingHost
      else if NormalizeAuthority(ip, host.value).value !in policy.allowedHosts then
        HostNotAllowed(NormalizeAuthority(ip, host.value).value)
      else if origin == None then OriginRequired
      else if NormalizeOrigin(ip, origin.value) == None then InvalidOrigin(origin.value)
      else OriginNotAllowed(NormalizeOrigin(ip, origin.value).value)
  {
    hide NormalizeAuthority, NormalizeOrigin;
  }

  /** A policy is made exactly from texts that all have normal forms; a bad host is reported first. */
  lemma PolicyIff(ip: IpText, hosts: seq<Bytes>, origins: seq<Bytes>, allowMissing: bool)
    ensures var hostsOk := forall i :: 0 <= i < |hosts| ==> NormalizeAuthority(ip, hosts[i]).Some?;
      var originsOk := forall i :: 0 <= i < |origins| ==> NormalizeOrigin(ip, origins[i]).Some?;
      var policy := NewPolicy(ip, hosts, origins, allowMissing);
      && (policy.Ok? <==> hostsOk && originsOk)
      && (policy.Err? ==> policy.error == if !hostsOk then InvalidHost else InvalidOriginConfigured)
  {
    hide NormalizeAuthority, NormalizeOrigin;
    var normalHost, normalOrigin := text => NormalizeAuthority(ip, text), text => NormalizeOrigin(ip, text);
    assert Collect(normalHost, hosts).Some? <==> forall i :: 0 <= i < |hosts| ==> normalHost(hosts[i]).Some?;
    assert Collect(normalOrigin, origins).Some? <==> forall i :: 0 <= i < |origins| ==> normalOrigin(origins[i]).Some?;
  }

  lemma AllowedHostMatches(ip: IpText, hosts: seq<Bytes>, host: Bytes)
    requires ip.Lawful() && forall i :: 0 <= i < |hosts| ==> NormalizeAuthority(ip, hosts[i]).Some?
    ensures (NormalizeAuthority(ip, host).Some?
             && exists i :: 0 <= i < |hosts| && NormalizeAuthority(ip, hosts[i]) == NormalizeAuthority(ip, host))
            <==> HostMatches(ip, hosts, host)
  {
    if NormalizeAuthority(ip, host).Some? {
      if i :| 0 <= i < |hosts| && NormalizeAuthority(ip, hosts[i]) == NormalizeAuthority(ip, host) {
        SameNormalFormIffSameAuthority(ip, hosts[i], host);
      }
    }
    if i, a :| 0 <= i < |hosts| && Denotes(ip, hosts[i], a) && Denotes(ip, host, a) {
      var cut: nat :| Spells(ip, host, cut, a);
      SpellingNormalizes(ip, host, cut, a);
      SameNormalFormIffSameAuthority(ip, hosts[i], host);
    }
  }

  /**
   * A request passes exactly when its host denotes a configured authority and its origin, if it has
   * one, has a configured origin's normal form; without one the policy must allow its absence.
   */
  lemma RequestPassesIff(ip: IpText, hosts: seq<Bytes>, origins: seq<Bytes>, allowMissing: bool,
                         host: Option<Bytes>, origin: Option<Bytes>)
    requires ip.Lawful() && NewPolicy(ip, hosts, origins, allowMissing).Ok?
    ensures ValidateRequest(ip, NewPolicy(ip, hosts, origins, allowMissing).value, host, origin).Ok? <==>
      && host.Some? && HostMatches(ip, hosts, host.value)
      && (if origin.Some? then OriginMatches(ip, origins, origin.value) else allowMissing)
  {
    var policy := NewPolicy(ip, hosts, origins, allowMissing).value;
    PolicyMembers(ip, hosts, origins, allowMissing);
    if host.Some? {
      HostAllowed(ip, hosts, policy.allowedHosts, host.value);
      AllowedHostMatches(ip, hosts, host.value);
    }
    if origin.Some? {
      OriginAllowed(ip, origins, policy.allowedOrigins, origin.value);
    }
    hide NormalizeAuthority, NormalizeOrigin, HostMatches, OriginMatches, NewPolicy, Members;
  }

  /** The set holds exactly the normal forms of the texts. */
  predicate Members(normalize: Bytes -> Option<Bytes>, texts: seq<Bytes>, all: set<Bytes>) {
    && (forall i :: 0 <= i < |texts| ==> normalize(texts[i]).Some? && normalize(texts[i]).value in all)
    && (forall n :: n in all ==> exists i :: 0 <= i < |texts| && normalize(texts[i]) == Some(n))
  }

  lemma PolicyMembers(ip: IpText, hosts: seq<Bytes>, origins: seq<Bytes>, allowMissing: bool)
    requires NewPolicy(ip, hosts, origins, allowMissing).Ok?
    ensures var policy := NewPolicy(ip, hosts, origins, allowMissing).value;
      && Members(text => NormalizeAuthority(ip, text), hosts, policy.allowedHosts)
      && Members(text => NormalizeOrigin(ip, text), origins, policy.allowedOrigins)
      && policy.allowMissingOrigin == allowMissing
  {
    hide NormalizeAuthority, NormalizeOrigin;
  }

  lemma HostAllowed(ip: IpText, hosts: seq<Bytes>, all: set<Bytes>, host: Bytes)
    requires Members(text => NormalizeAuthority(ip, text), hosts, all)
    ensures forall i :: 0 <= i < |hosts| ==> NormalizeAuthority(ip, hosts[i]).Some?
    ensures NormalizeAuthority(ip, host).Some? ==>
      (NormalizeAuthority(ip, host).value in all <==>
       exists i :: 0 <= i < |hosts| && NormalizeAuthority(ip, hosts[i]) == NormalizeAuthority(ip, host))
  {
    hide NormalizeAuthority;
  }

  lemma OriginAllowed(ip: IpText, origins: seq<Bytes>, all: set<Bytes>, origin: Bytes)
    requires Members(text => NormalizeOrigin(ip, text), origins, all)
    ensures NormalizeOrigin(ip, origin).Some? && NormalizeOrigin(ip, origin).value in all
            <==> OriginMatches(ip, origins, origin)
  {
    hide NormalizeOrigin;
  }
}
