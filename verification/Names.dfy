/** Segment file names: `append-<id>.segment`, the ID in canonical decimal. */
module Names {
  import opened Words
  import opened Records
  import opened Replay

  const PREFIX: string := "append-"
  const SUFFIX: string := ".segment"

  predicate IsDigit(c: char) {
    '0' <= c <= '9'
  }

  predicate AllDigits(s: string) {
    forall i :: 0 <= i < |s| ==> IsDigit(s[i])
  }

  function Digit(k: nat): char
    requires k < 10
  {
    ('0' as int + k) as char
  }

  function DigitValue(c: char): nat
    requires IsDigit(c)
  {
    c as int - '0' as int
  }

  function Decimal(n: nat): string {
    if n < 10 then [Digit(n)] else Decimal(n / 10) + [Digit(n % 10)]
  }

  /** `u64::from_str` on a string of digits, before the range check. */
  function ValueOf(s: string): nat
    requires AllDigits(s)
  {
    if s == [] then 0 else 10 * ValueOf(s[..|s| - 1]) + DigitValue(s[|s| - 1])
  }

  function FileName(id: SegmentId): string {
    PREFIX + Decimal(id) + SUFFIX
  }

  function StripPrefix(s: string, p: string): Option<string> {
    if p <= s then Some(s[|p|..]) else None
  }

  function StripSuffix(s: string, p: string): Option<string> {
    if |p| <= |s| && s[|s| - |p|..] == p then Some(s[..|s| - |p|]) else None
  }

  /** `SegmentName::parse_file_name`. */
  function ParseFileName(name: string): Option<SegmentId> {
    match StripPrefix(name, PREFIX)
    case None => None
    case Some(rest) =>
      match StripSuffix(rest, SUFFIX)
      case None => None
      case Some(id) =>
        if id == [] || !AllDigits(id) then None
        else if |id| > 1 && id[0] == '0' then None
        else if U64_LIMIT <= ValueOf(id) then None
        else Some(ValueOf(id))
  }

  predicate Canonical(s: string) {
    s != [] && AllDigits(s) && (|s| > 1 ==> s[0] != '0')
  }

  lemma {:induction false} DecimalCanonical(n: nat)
    ensures Canonical(Decimal(n)) && ValueOf(Decimal(n)) == n
    ensures n > 0 ==> Decimal(n)[0] != '0'
  {
    if n < 10 {
      assert [Digit(n)][..0] == [];
    } else {
      DecimalCanonical(n / 10);
      var s := Decimal(n);
      assert s[..|s| - 1] == Decimal(n / 10);
    }
  }

  lemma {:induction false} CanonicalValue(s: string)
    requires Canonical(s)
    ensures Decimal(ValueOf(s)) == s
    ensures s[0] != '0' ==> ValueOf(s) > 0
    decreases |s|
  {
    var most, last := s[..|s| - 1], s[|s| - 1];
    if most == [] {
      assert s == [last];
    } else {
      CanonicalValue(most);
      assert ValueOf(s) / 10 == ValueOf(most) && ValueOf(s) % 10 == DigitValue(last);
      assert s == most + [last];
    }
  }

  lemma Strip(prefix: string, middle: string, suffix: string)
    ensures StripPrefix(prefix + middle + suffix, prefix) == Some(middle + suffix)
    ensures StripSuffix(middle + suffix, suffix) == Some(middle)
  {
    assert (prefix + middle + suffix)[|prefix|..] == middle + suffix;
    assert (middle + suffix)[|middle|..] == suffix;
    assert (middle + suffix)[..|middle|] == middle;
  }

  /** A name parses as an ID exactly when it is that ID's name: printing and parsing are inverse,
      and no other spelling of a number is taken for a segment. */
  lemma NamesAreUnique(name: string, id: SegmentId)
    ensures ParseFileName(name) == Some(id) <==> name == FileName(id)
  {
    hide ValueOf, Decimal, AllDigits;
    DecimalCanonical(id);
    Strip(PREFIX, Decimal(id), SUFFIX);
    if ParseFileName(name) == Some(id) {
      var rest := name[|PREFIX|..];
      var digits := rest[..|rest| - |SUFFIX|];
      CanonicalValue(digits);
      assert name == PREFIX + rest && rest == digits + SUFFIX;
      assert name == PREFIX + digits + SUFFIX;
    }
  }

  /** The names themselves. */
  lemma SomeNames()
    ensures FileName(0) == "append-0.segment"
    ensures FileName(9_075) == "append-9075.segment"
  {
    assert Decimal(0) == "0";
    assert Decimal(9) == "9";
    assert Decimal(90) == "90";
    assert Decimal(907) == "907";
    assert Decimal(9_075) == "9075";
  }
}
