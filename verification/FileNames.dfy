/** SSTable file names: zero-padded decimal identifiers. */
module FileNames {
  import opened Errors
  import Bytes

  const PREFIX: string := "sstable_"
  const EXTENSION: string := ".sst"

  function Digit(d: nat): char
    requires d < 10
  {
    '0' + d as char
  }

  predicate IsDigit(c: char) {
    '0' <= c <= '9'
  }

  function Decimal(n: nat): string {
    if n < 10 then [Digit(n)] else Decimal(n / 10) + [Digit(n % 10)]
  }

  /** The `{:06}` format: left-padded with zeros to six characters, longer if needed. */
  function Padded(s: string): string
    decreases 6 - |s|
  {
    if |s| >= 6 then s else Padded("0" + s)
  }

  function FileName(id: nat): string {
    PREFIX + Padded(Decimal(id)) + EXTENSION
  }

  /** Position of the last dot, if any. */
  function LastDot(s: string): Option<nat> {
    if s == [] then None
    else if s[|s| - 1] == '.' then Some(|s| - 1)
    else LastDot(s[..|s| - 1])
  }

  /** The name without its extension; a leading dot does not start one. */
  function Stem(name: string): string {
    match LastDot(name)
    case Some(i) => if 0 < i <= |name| then name[..i] else name
    case None => name
  }

  function DecimalValue(s: string): Option<nat> {
    if s == [] then Some(0)
    else if !IsDigit(s[|s| - 1]) then None
    else
      match DecimalValue(s[..|s| - 1])
      case None => None
      case Some(n) => Some(10 * n + (s[|s| - 1] - '0') as nat)
  }

  /** `str::parse::<u64>`: an optional plus sign, digits, no overflow. */
  function ParseU64(s: string): Option<nat> {
    var digits := if s != [] && s[0] == '+' then s[1..] else s;
    if digits == [] then None else
      match DecimalValue(digits)
      case Some(n) => if n < Bytes.U64 then Some(n) else None
      case None => None
  }

  function ParseId(name: string): Option<nat> {
    var stem := Stem(name);
    if PREFIX <= stem then ParseU64(stem[|PREFIX|..]) else None
  }

  lemma {:induction false} DecimalReads(n: nat)
    ensures DecimalValue(Decimal(n)) == Some(n) && Decimal(n) != [] && Decimal(n)[0] != '+'
  {
    if n >= 10 {
      DecimalReads(n / 10);
      assert Decimal(n)[..|Decimal(n)| - 1] == Decimal(n / 10);
    } else {
      assert Decimal(n)[..0] == [];
    }
  }

  lemma {:induction false} LeadingZero(s: string)
    ensures DecimalValue("0" + s) == DecimalValue(s)
  {
    if s == [] {
      assert ("0" + s)[..0] == [];
    } else {
      assert ("0" + s)[..|s|] == "0" + s[..|s| - 1];
      LeadingZero(s[..|s| - 1]);
    }
  }

  lemma {:induction false} PaddedReads(s: string)
    requires s != [] && s[0] != '+'
    ensures DecimalValue(Padded(s)) == DecimalValue(s) && Padded(s) != [] && Padded(s)[0] != '+'
    decreases 6 - |s|
  {
    if |s| < 6 {
      LeadingZero(s);
      PaddedReads("0" + s);
    }
  }

  lemma StemOf(s: string)
    requires s != []
    ensures Stem(s + EXTENSION) == s
  {
    var name := s + EXTENSION;
    assert name[..|name| - 1] == s + ".ss";
    assert (s + ".ss")[..|s| + 2] == s + ".s";
    assert (s + ".s")[..|s| + 1] == s + ".";
    assert LastDot(s + ".") == Some(|s|);
    assert LastDot(s + ".s") == Some(|s|);
    assert LastDot(s + ".ss") == Some(|s|);
  }

  /** Every identifier is read back from its file name, also past six digits. */
  lemma NameRoundTrip(id: nat)
    requires id < Bytes.U64
    ensures ParseId(FileName(id)) == Some(id)
  {
    var digits := Padded(Decimal(id));
    DecimalReads(id);
    PaddedReads(Decimal(id));
    StemOf(PREFIX + digits);
    assert (PREFIX + digits)[|PREFIX|..] == digits;
  }

  /** Different identifiers never share a file. */
  lemma NameInjective(a: nat, b: nat)
    requires a < Bytes.U64 && b < Bytes.U64 && FileName(a) == FileName(b)
    ensures a == b
  {
    NameRoundTrip(a);
    NameRoundTrip(b);
  }

  // -- What the names look like -----------------------------------------------

  function Pow10(i: nat): (p: nat)
    ensures p > 0
  {
    if i == 0 then 1 else 10 * Pow10(i - 1)
  }

  lemma TenTimes(n: nat, p: nat)
    requires p > 0
    ensures n / (10 * p) == n / 10 / p
  {
    var q, r := n / 10 / p, n / 10 % p;
    assert n == (10 * p) * q + (n % 10 + 10 * r);
    Bytes.DivModUnique(n, 10 * p, q, n % 10 + 10 * r);
  }

  /** The digits of a number, the last one first. */
  lemma {:induction false} DecimalDigits(n: nat, i: nat)
    requires i < |Decimal(n)|
    ensures Decimal(n)[|Decimal(n)| - 1 - i] == Digit(n / Pow10(i) % 10)
  {
    if i > 0 {
      DecimalDigits(n / 10, i - 1);
      TenTimes(n, Pow10(i - 1));
    }
  }

  /** There are as many digits as the number needs. */
  lemma {:induction false} DecimalLength(n: nat)
    ensures |Decimal(n)| > 0 && n < Pow10(|Decimal(n)|) && (n > 0 ==> Pow10(|Decimal(n)| - 1) <= n)
  {
    if n >= 10 {
      DecimalLength(n / 10);
    }
  }

  lemma {:induction false} PaddedLayout(s: string)
    ensures |Padded(s)| == (if |s| < 6 then 6 else |s|) && Padded(s)[|Padded(s)| - |s|..] == s
    ensures forall i | 0 <= i < |Padded(s)| - |s| :: Padded(s)[i] == '0'
    decreases 6 - |s|
  {
    if |s| < 6 {
      PaddedLayout("0" + s);
      var p := Padded(s);
      assert p[|p| - |s| - 1..] == "0" + s;
      assert p[|p| - |s| - 1] == p[|p| - |s| - 1..][0] == '0';
      assert p[|p| - |s|..] == p[|p| - |s| - 1..][1..];
    }
  }

  /** `sstable_`, at least six digits, `.sst`: zeros, then the identifier in decimal. */
  lemma NameLayout(id: nat)
    ensures var name, digits := FileName(id), Decimal(id);
      var width := if |digits| < 6 then 6 else |digits|;
      && |name| == 12 + width && name[..8] == "sstable_" && name[8 + width..] == ".sst"
      && name[8 + width - |digits|..8 + width] == digits
      && forall i | 8 <= i < 8 + width - |digits| :: name[i] == '0'
  {
    hide Padded, Decimal;
    PaddedLayout(Decimal(id));
    var name, p := FileName(id), Padded(Decimal(id));
    assert name[8..8 + |p|] == p;
    assert forall i | 8 <= i < 8 + |p| :: name[i] == p[i - 8];
    assert name[8 + |p| - |Decimal(id)|..8 + |p|] == p[|p| - |Decimal(id)|..];
  }

  // -- Which names count as tables --------------------------------------------

  predicate NoDot(s: string) {
    forall c <- s :: c != '.'
  }

  lemma {:induction false} LastDotSplits(s: string)
    ensures LastDot(s).None? ==> NoDot(s)
    ensures LastDot(s).Some? ==> var i := LastDot(s).value; i < |s| && s[i] == '.' && NoDot(s[i + 1..])
  {
    if s != [] && s[|s| - 1] != '.' {
      LastDotSplits(s[..|s| - 1]);
      assert s == s[..|s| - 1] + [s[|s| - 1]];
      if LastDot(s).Some? {
        var i := LastDot(s).value;
        assert s[i + 1..] == s[..|s| - 1][i + 1..] + [s[|s| - 1]];
      }
    }
  }

  /** An extension starts at a dot and has no other. */
  predicate IsExtension(s: string) {
    s == [] || (s[0] == '.' && NoDot(s[1..]))
  }

  lemma StemIs(stem: string, ext: string)
    requires stem != [] && NoDot(stem) && IsExtension(ext)
    ensures Stem(stem + ext) == stem
  {
    var name := stem + ext;
    LastDotSplits(name);
    assert forall i | 0 <= i < |stem| :: name[i] == stem[i] && stem[i] in stem;
    assert forall i | |stem| < i < |name| :: name[i] == ext[1..][i - |stem| - 1] && name[i] in ext[1..];
    assert ext != [] ==> name[|stem|] == '.' && name[|stem|] in name;
    if LastDot(name).Some? {
      assert LastDot(name).value == |stem|;
    }
  }

  predicate AllDigits(s: string) {
    forall c <- s :: IsDigit(c)
  }

  lemma {:induction false} DecimalValueDigits(s: string)
    ensures DecimalValue(s).Some? <==> AllDigits(s)
  {
    if s != [] {
      DecimalValueDigits(s[..|s| - 1]);
      assert s == s[..|s| - 1] + [s[|s| - 1]];
    }
  }

  ghost predicate NamesTable(name: string, n: nat, sign: string, digits: string, ext: string) {
    && name == "sstable_" + sign + digits + ext
    && (sign == "" || sign == "+") && digits != "" && AllDigits(digits) && IsExtension(ext)
    && DecimalValue(digits) == Some(n) && n < Bytes.U64
  }

  lemma ParsedNamesTable(name: string, n: nat) returns (sign: string, digits: string, ext: string)
    requires ParseId(name) == Some(n)
    ensures NamesTable(name, n, sign, digits, ext)
  {
    hide LastDot, DecimalValue, AllDigits, NoDot;
    LastDotSplits(name);
    var stem := Stem(name);
    var rest := stem[8..];
    sign := if rest[0] == '+' then "+" else "";
    digits, ext := rest[|sign|..], name[|stem|..];
    DecimalValueDigits(digits);
    assert name == stem + ext && stem == "sstable_" + rest && rest == sign + digits;
  }

  lemma NoDotConcat(a: string, b: string)
    requires NoDot(a) && NoDot(b)
    ensures NoDot(a + b)
  {
  }

  lemma PrefixNoDot(digits: string)
    requires AllDigits(digits)
    ensures NoDot(PREFIX) && NoDot("") && NoDot("+") && NoDot(digits)
  {
  }

  lemma SignedDigits(sign: string, digits: string, n: nat)
    requires (sign == "" || sign == "+") && digits != "" && AllDigits(digits)
    requires DecimalValue(digits) == Some(n) && n < Bytes.U64
    ensures ParseU64(sign + digits) == Some(n)
  {
    hide DecimalValue;
    assert digits[0] in digits;
    assert (sign + digits)[|sign|..] == digits;
    assert sign == "" ==> sign + digits == digits;
  }

  lemma TableNameParses(name: string, n: nat, sign: string, digits: string, ext: string)
    requires NamesTable(name, n, sign, digits, ext)
    ensures ParseId(name) == Some(n)
  {
    hide LastDot, DecimalValue, Stem, NoDot, AllDigits, ParseU64, IsExtension;
    var stem := PREFIX + (sign + digits);
    PrefixNoDot(digits);
    NoDotConcat(sign, digits);
    NoDotConcat(PREFIX, sign + digits);
    StemIs(stem, ext);
    assert name == stem + ext;
    assert stem[|PREFIX|..] == sign + digits;
    SignedDigits(sign, digits, n);
  }

  /** A name counts as table n iff it is `sstable_`, perhaps a plus sign, digits of value n
      below 2^64, and perhaps some extension. */
  lemma ParseIdIff(name: string, n: nat)
    ensures ParseId(name) == Some(n) <==> exists sign, digits, ext :: NamesTable(name, n, sign, digits, ext)
  {
    hide ParseId, NamesTable;
    if ParseId(name) == Some(n) {
      var sign, digits, ext := ParsedNamesTable(name, n);
    }
    forall sign, digits, ext | NamesTable(name, n, sign, digits, ext) ensures ParseId(name) == Some(n) {
      TableNameParses(name, n, sign, digits, ext);
    }
  }
}
