/** The two pure helpers of the retrieval agent: lenient year parsing and
    file-name sanitising. */
module Filenames {
  import opened Text
  import opened Values

  /** What `safe_to_int` may be handed: `None`, a free-text date, or a
      number from a JSON record. */
  datatype YearInput = NoYear | YearText(text: string) | YearNumber(n: int)

  /** Four ASCII digits start at position `j` of `s` (the regex `\d{4}`). */
  predicate FourDigitsAt(s: string, j: int) {
    0 <= j && j + 4 <= |s| && AllDigits(s[j..j + 4])
  }

  /** `j` is where `re.search(r'\d{4}', s)` matches: the leftmost run. */
  predicate FirstFourDigitsAt(s: string, j: int) {
    FourDigitsAt(s, j) && forall i :: 0 <= i < j ==> !FourDigitsAt(s, i)
  }

  /** The leftmost position at or after `from` where four digits start. */
  function SearchFourDigits(s: string, from: nat): (r: Option<nat>)
    requires forall i :: 0 <= i < from ==> !FourDigitsAt(s, i)
    ensures r.Some? ==> FirstFourDigitsAt(s, r.value)
    ensures r.None? ==> forall i :: !FourDigitsAt(s, i)
    decreases |s| - from
  {
    if from + 4 > |s| then None
    else if FourDigitsAt(s, from) then Some(from)
    else SearchFourDigits(s, from + 1)
  }

  /** The number left once trailing digits are dropped until it is below
      `10^width`: its leading `width` digits. */
  function LeadingDigits(m: nat, width: nat): (r: nat)
    requires width >= 1
    ensures r < Pow10(width)
    ensures r <= m
    decreases m
  {
    if m < Pow10(width) then m else LeadingDigits(m / 10, width)
  }

  /** `int(str(n)[:4])`: a number keeps its leading four digits, a negative
      one its sign and leading three digits. */
  function LeadingDigitsValue(n: int): (r: int)
    ensures -999 <= r <= 9999
    ensures n >= 0 ==> r == LeadingDigits(n, 4)
    ensures n < 0 ==> r == -(LeadingDigits(-n, 3) as int)
  {
    var digits := Prefix(IntToString(n), 4);
    if n >= 0 then
      FourDigitsBound(digits);
      LeadingPrefixValue(n, 4);
      DigitsValue(digits)
    else
      var tail := digits[1..];
      assert tail == Prefix(NatToString(-n), 3);
      FourDigitsBound(tail);
      LeadingPrefixValue(-n, 3);
      -(DigitsValue(tail) as int)
  }

  /** The first `width` characters of `str(m)` are worth `LeadingDigits(m, width)`. */
  lemma {:induction false} LeadingPrefixValue(m: nat, width: nat)
    requires width >= 1
    ensures DigitsValue(Prefix(NatToString(m), width)) == LeadingDigits(m, width)
    decreases m
  {
    var s := NatToString(m);
    if m < Pow10(width) {
      NatToStringShort(m, width);
      NatToStringRoundTrip(m);
    } else {
      var head := NatToString(m / 10);
      assert s == head + [DigitChar(m % 10)];
      NatToStringLong(m / 10, width);
      assert Prefix(s, width) == Prefix(head, width);
      LeadingPrefixValue(m / 10, width);
    }
  }

  /** A number of at least `10^(k-1)` is written with at least `k` digits. */
  lemma {:induction false} NatToStringLong(m: nat, k: nat)
    requires 1 <= k && Pow10(k - 1) <= m
    ensures |NatToString(m)| >= k
    decreases k
  {
    if k > 1 {
      NatToStringLong(m / 10, k - 1);
    }
  }

  /** At most four digits are worth at most 9999, three at most 999. */
  lemma FourDigitsBound(s: string)
    requires AllDigits(s) && |s| <= 4
    ensures DigitsValue(s) <= 9999
    ensures |s| <= 3 ==> DigitsValue(s) <= 999
  {
    DigitsValueBound(s);
    assert Pow10(1) == 10 && Pow10(2) == 100 && Pow10(3) == 1000 && Pow10(4) == 10000;
  }

  /** `safe_to_int(value)` (Retrieval_agent.py:39-46). */
  function SafeToInt(v: YearInput): (r: Option<int>)
    ensures v.NoYear? ==> r.None?
    ensures v.YearText? ==> (r.None? <==> forall j :: !FourDigitsAt(v.text, j))
    ensures v.YearText? ==> forall j :: FirstFourDigitsAt(v.text, j) ==>
              r == Some(DigitsValue(v.text[j..j + 4]))
    ensures v.YearText? && r.Some? ==> 0 <= r.value <= 9999
    ensures v.YearNumber? ==> r == Some(LeadingDigitsValue(v.n))
  {
    match v
    case NoYear => None
    case YearText(s) =>
      var found := SearchFourDigits(s, 0);
      if found.None? then None
      else
        var j := found.value;
        FirstRunUnique(s, j);
        FourDigitsBound(s[j..j + 4]);
        Some(DigitsValue(s[j..j + 4]))
    case YearNumber(n) => Some(LeadingDigitsValue(n))
  }

  lemma FirstRunUnique(s: string, j: int)
    requires FirstFourDigitsAt(s, j)
    ensures forall k :: FirstFourDigitsAt(s, k) ==> k == j
  {
  }

  /** A year given as a number of at most four digits is kept as it is. */
  lemma YearNumberKept(n: nat)
    requires n <= 9999
    ensures SafeToInt(YearNumber(n)) == Some(n)
  {
    NatToStringRoundTrip(n);
    assert Pow10(4) == 10000;
    NatToStringShort(n, 4);
  }

  /** Example of the text case: a bare year is read as that year. */
  lemma YearOfBareYear()
    ensures SafeToInt(YearText("2023")) == Some(2023)
  {
    DigitsOf2023();
    assert "2023"[0..4] == "2023";
    assert FirstFourDigitsAt("2023", 0);
  }

  lemma DigitsOf2023()
    ensures DigitsValue("2023") == 2023
  {
    assert DigitsValue("2") == 2 by { assert "2"[..0] == ""; }
    assert DigitsValue("20") == 20 by { assert "20"[..1] == "2"; }
    assert DigitsValue("202") == 202 by { assert "202"[..2] == "20"; }
    assert DigitsValue("2023") == 2023 by { assert "2023"[..3] == "202"; }
  }

  /** Example of the text case: a year inside a sentence is found by the
      leftmost four-digit run. */
  lemma YearInsideText(s: string)
    requires s == "Published in 2023 at ICML"
    ensures SafeToInt(YearText(s)) == Some(2023)
  {
    FirstRunInSentence(s);
    var year := s[13..17];
    assert year == "2023";
    DigitsOf2023();
  }

  lemma FirstRunInSentence(s: string)
    requires s == "Published in 2023 at ICML"
    ensures FirstFourDigitsAt(s, 13)
  {
    var year := s[13..17];
    assert year == "2023";
    assert !IsDigit(s[0]) && !IsDigit(s[1]) && !IsDigit(s[2]) && !IsDigit(s[3]);
    assert !IsDigit(s[4]) && !IsDigit(s[5]) && !IsDigit(s[6]) && !IsDigit(s[7]);
    assert !IsDigit(s[8]) && !IsDigit(s[9]) && !IsDigit(s[10]) && !IsDigit(s[11]);
    assert !IsDigit(s[12]);
    NoDigitsBefore(s, 13);
  }

  lemma NoDigitsBefore(s: string, j: nat)
    requires j <= |s|
    requires forall i :: 0 <= i < j ==> !IsDigit(s[i])
    ensures forall i :: 0 <= i < j ==> !FourDigitsAt(s, i)
  {
    forall i | 0 <= i < j ensures !FourDigitsAt(s, i) {
      if i + 4 <= |s| {
        assert s[i..i + 4][0] == s[i];
      }
    }
  }

  /** Text without four consecutive digits gives no year. */
  lemma NoYearInText()
    ensures SafeToInt(YearText("N/A")) == None
  {
  }

  /** The characters `sanitize_filename` refuses in a file name. */
  predicate Unsafe(c: char) {
    c == '\\' || c == '/' || c == '*' || c == '?' || c == ':' || c == '"'
    || c == '<' || c == '>' || c == '|'
  }

  function SafeChar(c: char): (r: char)
    ensures !Unsafe(r)
  {
    if Unsafe(c) then '_' else c
  }

  const MaxFileNameLength := 150

  /** `sanitize_filename(name)` (Retrieval_agent.py:48-50). */
  function SanitizeFilename(name: string): (r: string)
    ensures |r| == if |name| <= MaxFileNameLength then |name| else MaxFileNameLength
    ensures forall i :: 0 <= i < |r| ==> !Unsafe(r[i])
    ensures forall i :: 0 <= i < |r| ==> r[i] == (if Unsafe(name[i]) then '_' else name[i])
  {
    var replaced := seq(|name|, i requires 0 <= i < |name| => SafeChar(name[i]));
    Prefix(replaced, MaxFileNameLength)
  }

  /** Sanitising a sanitised name changes nothing. */
  lemma SanitizeIdempotent(name: string)
    ensures SanitizeFilename(SanitizeFilename(name)) == SanitizeFilename(name)
  {
  }

  /** A short name without unsafe characters is its own sanitised form. */
  lemma SanitizeKeepsSafeNames(name: string)
    requires |name| <= MaxFileNameLength
    requires forall i :: 0 <= i < |name| ==> !Unsafe(name[i])
    ensures SanitizeFilename(name) == name
  {
  }
}
