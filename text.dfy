/** Python `str` operations used by the pipeline, modelled on `seq<char>`.
    Each function follows the CPython definition of the method it is named
    after; `Lower` folds ASCII letters only. */
module Text {

  /** `c.isspace()`: the ASCII whitespace characters (including the four
      information separators 0x1C..0x1F) and the Unicode space separators. */
  predicate IsSpace(c: char) {
    var n := c as int;
    n == 0x20 || 0x09 <= n <= 0x0D || 0x1C <= n <= 0x1F || n == 0x85 || n == 0xA0
    || n == 0x1680 || 0x2000 <= n <= 0x200A || n == 0x2028 || n == 0x2029
    || n == 0x202F || n == 0x205F || n == 0x3000
  }

  predicate IsAscii(c: char) {
    c as int < 0x80
  }

  predicate IsDigit(c: char) {
    '0' <= c <= '9'
  }

  predicate AllDigits(s: string) {
    forall i :: 0 <= i < |s| ==> IsDigit(s[i])
  }

  /** `s[i:i+len(sub)] == sub` with the slice inside `s`. */
  predicate OccursAt(s: string, sub: string, i: int) {
    0 <= i && i + |sub| <= |s| && s[i..i + |sub|] == sub
  }

  predicate StartsWith(s: string, prefix: string) {
    |prefix| <= |s| && s[..|prefix|] == prefix
  }

  predicate EndsWith(s: string, suffix: string) {
    |suffix| <= |s| && s[|s| - |suffix|..] == suffix
  }

  /** `sub in s`. */
  predicate Contains(s: string, sub: string)
    ensures Contains(s, sub) <==> exists i :: OccursAt(s, sub, i)
    decreases |s|
  {
    if |s| < |sub| then
      assert forall i :: !OccursAt(s, sub, i);
      false
    else if s[..|sub|] == sub then
      assert OccursAt(s, sub, 0);
      true
    else
      assert forall i :: OccursAt(s, sub, i) && i > 0 ==> OccursAt(s[1..], sub, i - 1);
      assert forall i :: OccursAt(s[1..], sub, i) ==> OccursAt(s, sub, i + 1);
      Contains(s[1..], sub)
  }

  /** `s[:n]` for a non-negative `n`. */
  function Prefix(s: string, n: nat): (r: string)
    ensures |r| <= n && |r| <= |s|
    ensures r == s[..|r|]
    ensures |s| <= n ==> r == s
    ensures n <= |s| ==> |r| == n
  {
    if |s| <= n then s else s[..n]
  }

  /** `s.lstrip(chars)` with the character class given by `drop`. */
  function TrimLeft(s: string, drop: char -> bool): (r: string)
    ensures |r| <= |s| && r == s[|s| - |r|..]
    ensures r == [] || !drop(r[0])
    ensures forall k :: 0 <= k < |s| - |r| ==> drop(s[k])
    decreases |s|
  {
    if s != [] && drop(s[0]) then
      var rest := TrimLeft(s[1..], drop);
      assert s[|s| - |rest|..] == s[1..][|s| - 1 - |rest|..];
      assert forall k :: 1 <= k < |s| - |rest| ==> s[k] == s[1..][k - 1];
      rest
    else s
  }

  /** `s.rstrip(chars)` with the character class given by `drop`. */
  function TrimRight(s: string, drop: char -> bool): (r: string)
    ensures |r| <= |s| && r == s[..|r|]
    ensures r == [] || !drop(r[|r| - 1])
    ensures forall k :: |r| <= k < |s| ==> drop(s[k])
    decreases |s|
  {
    if s != [] && drop(s[|s| - 1]) then TrimRight(s[..|s| - 1], drop) else s
  }

  /** `s.strip()`: white space is trimmed from both ends; trimming one end
      first or the other gives the same text. */
  function Strip(s: string): (r: string)
    ensures |r| <= |s|
    ensures r == [] || (!IsSpace(r[0]) && !IsSpace(r[|r| - 1]))
    decreases |s|
  {
    if s == [] then s
    else if IsSpace(s[0]) then Strip(s[1..])
    else if IsSpace(s[|s| - 1]) then Strip(s[..|s| - 1])
    else s
  }

  /** `s.strip('|')`. */
  function StripBars(s: string): (r: string)
    ensures |r| <= |s|
    ensures r == [] || (r[0] != '|' && r[|r| - 1] != '|')
  {
    TrimRight(TrimLeft(s, c => c == '|'), c => c == '|')
  }

  /** `Strip(s)` is a slice of `s`. */
  lemma StripSlice(s: string) returns (k: nat)
    ensures k + |Strip(s)| <= |s| && Strip(s) == s[k..k + |Strip(s)|]
  {
    var e;
    assert s[0..|s|] == s;
    k, e := StripOfSlice(s, 0, |s|);
  }

  /** The strip of `s[lo..hi]` is a slice of `s` inside `lo..hi`. */
  lemma {:induction false} StripOfSlice(s: string, lo: nat, hi: nat) returns (k: nat, e: nat)
    requires lo <= hi <= |s|
    ensures lo <= k <= e <= hi && Strip(s[lo..hi]) == s[k..e]
    decreases hi - lo
  {
    var t := s[lo..hi];
    if t == [] {
      k, e := lo, lo;
    } else if IsSpace(t[0]) {
      assert t[1..] == s[lo + 1..hi];
      k, e := StripOfSlice(s, lo + 1, hi);
    } else if IsSpace(t[|t| - 1]) {
      assert t[..|t| - 1] == s[lo..hi - 1];
      k, e := StripOfSlice(s, lo, hi - 1);
    } else {
      k, e := lo, hi;
    }
  }

  lemma StripUnchanged(s: string)
    requires s == [] || (!IsSpace(s[0]) && !IsSpace(s[|s| - 1]))
    ensures Strip(s) == s
  {
  }

  function LowerChar(c: char): char {
    if 'A' <= c <= 'Z' then (c as int + 32) as char else c
  }

  /** `s.lower()` on ASCII letters. */
  function Lower(s: string): (r: string)
    ensures |r| == |s|
    ensures forall i :: 0 <= i < |s| ==> r[i] == LowerChar(s[i])
  {
    seq(|s|, i requires 0 <= i < |s| => LowerChar(s[i]))
  }

  /** `s.count(c)` for a single character. */
  function CountChar(s: string, c: char): (n: nat)
    ensures n <= |s|
    ensures n == 0 <==> c !in s
  {
    if s == [] then 0 else (if s[0] == c then 1 else 0) + CountChar(s[1..], c)
  }

  /** Counting over a concatenation adds the counts. */
  lemma {:induction false} CountCharAppend(a: string, b: string, c: char)
    ensures CountChar(a + b, c) == CountChar(a, c) + CountChar(b, c)
    decreases |a|
  {
    if a != [] {
      assert (a + b)[1..] == a[1..] + b;
      CountCharAppend(a[1..], b, c);
    } else {
      assert a + b == b;
    }
  }

  /** `s.replace(pat, rep)`: non-overlapping occurrences, left to right. */
  function Replace(s: string, pat: string, rep: string): string
    requires |pat| > 0
    decreases |s|
  {
    if |s| < |pat| then s
    else if s[..|pat|] == pat then rep + Replace(s[|pat|..], pat, rep)
    else [s[0]] + Replace(s[1..], pat, rep)
  }

  /** An occurrence in a suffix is an occurrence in the whole text. */
  lemma OccursInSuffix(s: string, pat: string, d: nat, j: int)
    requires d <= |s|
    requires OccursAt(s[d..], pat, j)
    ensures OccursAt(s, pat, j + d)
  {
    assert s[d..][j..j + |pat|] == s[j + d..j + d + |pat|];
  }

  /** With no occurrence of `pat`, `Replace` returns `s` unchanged. */
  lemma {:induction false} ReplaceAbsent(s: string, pat: string, rep: string)
    requires |pat| > 0
    requires !Contains(s, pat)
    ensures Replace(s, pat, rep) == s
    decreases |s|
  {
    if |s| >= |pat| {
      ReplaceAbsent(s[1..], pat, rep);
    }
  }

  /** `Replace` copies a prefix in which no occurrence of `pat` starts. */
  lemma {:induction false} ReplaceSkip(s: string, pat: string, rep: string, k: nat)
    requires |pat| > 0 && k <= |s|
    requires forall j :: 0 <= j < k ==> !OccursAt(s, pat, j)
    ensures Replace(s, pat, rep) == s[..k] + Replace(s[k..], pat, rep)
    decreases k
  {
    if k > 0 {
      var tail := s[1..];
      assert !OccursAt(s, pat, 0);
      ReplaceStep(s, pat, rep);
      forall j | 0 <= j < k - 1 ensures !OccursAt(tail, pat, j) {
        NoOccurrenceInSuffix(s, pat, 1, j);
      }
      ReplaceSkip(tail, pat, rep, k - 1);
      assert tail[k - 1..] == s[k..];
      var done := Replace(s[k..], pat, rep);
      assert [s[0]] + tail[..k - 1] == s[..k];
      assert [s[0]] + (tail[..k - 1] + done) == ([s[0]] + tail[..k - 1]) + done;
    }
  }

  /** Where no occurrence starts, `Replace` copies the first character. */
  lemma ReplaceStep(s: string, pat: string, rep: string)
    requires |pat| > 0 && s != [] && !OccursAt(s, pat, 0)
    ensures Replace(s, pat, rep) == [s[0]] + Replace(s[1..], pat, rep)
  {
    if |s| < |pat| {
      assert s == [s[0]] + s[1..];
    } else {
      assert s[..|pat|] != pat;
    }
  }

  /** Where no occurrence starts at `j + d`, none starts at `j` in the
      suffix from `d`. */
  lemma NoOccurrenceInSuffix(s: string, pat: string, d: nat, j: int)
    requires d <= |s| && !OccursAt(s, pat, j + d)
    ensures !OccursAt(s[d..], pat, j)
  {
    if 0 <= j && j + |pat| <= |s| - d {
      assert s[d..][j..j + |pat|] == s[j + d..j + d + |pat|];
    }
  }



  /** With a single occurrence of `pat` at `k`, `Replace` rewrites exactly that one. */
  lemma ReplaceSingle(s: string, pat: string, rep: string, k: nat)
    requires |pat| > 0
    requires OccursAt(s, pat, k)
    requires forall j :: OccursAt(s, pat, j) ==> j == k
    ensures Replace(s, pat, rep) == s[..k] + rep + s[k + |pat|..]
  {
    ReplaceSkip(s, pat, rep, k);
    var rest := s[k + |pat|..];
    RestAbsent(s, pat, k);
    ReplaceAbsent(rest, pat, rep);
    assert s[k..][..|pat|] == pat;
    assert s[k..][|pat|..] == rest;
  }

  /** After the only occurrence of `pat`, there is none. */
  lemma RestAbsent(s: string, pat: string, k: nat)
    requires |pat| > 0
    requires OccursAt(s, pat, k)
    requires forall j :: OccursAt(s, pat, j) ==> j == k
    ensures !Contains(s[k + |pat|..], pat)
  {
    var rest := s[k + |pat|..];
    forall j | 0 <= j ensures !OccursAt(rest, pat, j) {
      NoOccurrenceInSuffix(s, pat, k + |pat|, j);
    }
  }

  /** Replacing one character by one character maps the string pointwise. */
  lemma {:induction false} ReplaceCharPointwise(s: string, a: char, b: char)
    ensures |Replace(s, [a], [b])| == |s|
    ensures forall i :: 0 <= i < |s| ==> Replace(s, [a], [b])[i] == (if s[i] == a then b else s[i])
    decreases |s|
  {
    if s != [] {
      ReplaceCharPointwise(s[1..], a, b);
      assert s[..1] == [s[0]];
    }
  }

  /** `s.split(sep)` for a non-empty separator. */
  function Split(s: string, sep: string): (r: seq<string>)
    requires |sep| > 0
    ensures |r| >= 1
    decreases |s|
  {
    if |s| < |sep| then [s]
    else if s[..|sep|] == sep then [""] + Split(s[|sep|..], sep)
    else
      var rest := Split(s[1..], sep);
      [[s[0]] + rest[0]] + rest[1..]
  }

  /** `sep.join(parts)`. */
  function Join(sep: string, parts: seq<string>): string
    decreases |parts|
  {
    if |parts| == 0 then ""
    else if |parts| == 1 then parts[0]
    else parts[0] + sep + Join(sep, parts[1..])
  }

  /** Joining the pieces of a split with the same separator gives the text back. */
  lemma {:induction false} JoinSplit(s: string, sep: string)
    requires |sep| > 0
    ensures Join(sep, Split(s, sep)) == s
    decreases |s|
  {
    if |s| < |sep| {
    } else if s[..|sep|] == sep {
      var rest := Split(s[|sep|..], sep);
      JoinSplit(s[|sep|..], sep);
      assert Split(s, sep) == [""] + rest;
      JoinCons(sep, "", rest);
      assert s == s[..|sep|] + s[|sep|..];
    } else {
      var rest := Split(s[1..], sep);
      JoinSplit(s[1..], sep);
      assert Split(s, sep) == [[s[0]] + rest[0]] + rest[1..];
      JoinFirst(sep, rest, s[0]);
      assert s == [s[0]] + s[1..];
    }
  }

  lemma JoinCons(sep: string, head: string, parts: seq<string>)
    requires |parts| >= 1
    ensures Join(sep, [head] + parts) == head + sep + Join(sep, parts)
  {
    assert ([head] + parts)[1..] == parts;
  }

  /** Putting a character in front of the first part puts it in front of
      the joined text. */
  lemma JoinFirst(sep: string, parts: seq<string>, c: char)
    requires |parts| >= 1
    ensures Join(sep, [[c] + parts[0]] + parts[1..]) == [c] + Join(sep, parts)
  {
    var r := [[c] + parts[0]] + parts[1..];
    if |parts| > 1 {
      assert r[1..] == parts[1..];
      assert Join(sep, r) == ([c] + parts[0]) + sep + Join(sep, parts[1..]);
    }
  }


  /** A text without the separator splits into itself. */
  lemma {:induction false} SplitAbsent(s: string, sep: string)
    requires |sep| > 0
    requires !Contains(s, sep)
    ensures Split(s, sep) == [s]
    decreases |s|
  {
    if |s| >= |sep| {
      assert !OccursAt(s, sep, 0);
      SplitAbsent(s[1..], sep);
      assert [s[0]] + s[1..] == s;
    }
  }

  /** Splitting `a + sep + b`, where the first occurrence of `sep` is the
      one after `a`, gives `a` and then the pieces of `b`. */
  lemma {:induction false} SplitPrefix(a: string, sep: string, b: string)
    requires |sep| > 0
    requires forall i :: 0 <= i < |a| ==> !OccursAt(a + sep + b, sep, i)
    ensures Split(a + sep + b, sep) == [a] + Split(b, sep)
    decreases |a|
  {
    var s := a + sep + b;
    if a == [] {
      assert s[..|sep|] == sep && s[|sep|..] == b;
    } else {
      assert !OccursAt(s, sep, 0);
      assert s[1..] == a[1..] + sep + b;
      forall i | 0 <= i < |a| - 1 ensures !OccursAt(a[1..] + sep + b, sep, i) {
        if OccursAt(a[1..] + sep + b, sep, i) {
          OccursInSuffix(s, sep, 1, i);
        }
      }
      SplitPrefix(a[1..], sep, b);
      assert [a[0]] + a[1..] == a;
    }
  }

  /** Splitting on a separator that occurs exactly once, at `k`. */
  lemma SplitSingle(s: string, sep: string, k: nat)
    requires |sep| > 0
    requires OccursAt(s, sep, k)
    requires forall j :: OccursAt(s, sep, j) ==> j == k
    ensures Split(s, sep) == [s[..k], s[k + |sep|..]]
  {
    var a, b := s[..k], s[k + |sep|..];
    assert s == a + sep + b;
    forall i | 0 <= i < |a| ensures !OccursAt(a + sep + b, sep, i) { }
    SplitPrefix(a, sep, b);
    if Contains(b, sep) {
      var j :| OccursAt(b, sep, j);
      OccursInSuffix(s, sep, k + |sep|, j);
    }
    SplitAbsent(b, sep);
  }

  /** `", ".join(names)` splits back into the names when none of them
      contains `", "`. */
  lemma {:induction false} SplitJoinCommaSpace(parts: seq<string>)
    requires |parts| >= 1
    requires forall p :: p in parts ==> !Contains(p, ", ")
    ensures Split(Join(", ", parts), ", ") == parts
    decreases |parts|
  {
    if |parts| == 1 {
      SplitAbsent(parts[0], ", ");
    } else {
      var a, b := parts[0], Join(", ", parts[1..]);
      var s := a + ", " + b;
      assert parts[0] in parts;
      forall i | 0 <= i < |a| ensures !OccursAt(s, ", ", i) {
        if i + 2 <= |a| {
          assert a[i..i + 2] == s[i..i + 2];
          assert !OccursAt(a, ", ", i);
        } else {
          assert s[i + 1] == ',';
          assert s[i..i + 2] != ", " by { assert s[i..i + 2][1] == s[i + 1]; }
        }
      }
      SplitPrefix(a, ", ", b);
      SplitJoinCommaSpace(parts[1..]);
      assert [a] + parts[1..] == parts;
    }
  }

  /** `"\n\n".join(parts)` splits back into the parts when none of them
      holds a blank line or ends with a line break. */
  /** A piece of text with no blank line in it and no line break at its end. */
  predicate Paragraph(p: string) {
    !Contains(p, "\n\n") && (p == [] || p[|p| - 1] != '\n')
  }

  lemma {:induction false} SplitJoinBlankLine(parts: seq<string>)
    requires |parts| >= 1
    requires forall i :: 0 <= i < |parts| ==> Paragraph(parts[i])
    ensures Split(Join("\n\n", parts), "\n\n") == parts
    decreases |parts|
  {
    if |parts| == 1 {
      assert Paragraph(parts[0]);
      SplitAbsent(parts[0], "\n\n");
    } else {
      var a, b := parts[0], Join("\n\n", parts[1..]);
      var s := a + "\n\n" + b;
      assert Paragraph(a);
      forall i | 0 <= i < |a| ensures !OccursAt(s, "\n\n", i) {
        if i + 2 <= |a| {
          assert a[i..i + 2] == s[i..i + 2];
          assert !OccursAt(a, "\n\n", i);
        } else {
          assert s[i] == a[|a| - 1];
          assert s[i..i + 2][0] == s[i];
        }
      }
      SplitPrefix(a, "\n\n", b);
      assert forall i :: 0 <= i < |parts| - 1 ==> parts[1..][i] == parts[i + 1];
      SplitJoinBlankLine(parts[1..]);
      assert [a] + parts[1..] == parts;
    }
  }

  /** Joining pieces free of the character `c` with `c` and splitting on it
      gives the pieces back. */
  lemma {:induction false} SplitJoinChar(parts: seq<string>, c: char)
    requires |parts| >= 1
    requires forall p :: p in parts ==> c !in p
    ensures Split(Join([c], parts), [c]) == parts
    decreases |parts|
  {
    if |parts| == 1 {
      assert parts[0] in parts;
      forall i ensures !OccursAt(parts[0], [c], i) {
        if 0 <= i < |parts[0]| {
          assert parts[0][i..i + 1][0] == parts[0][i];
        }
      }
      SplitAbsent(parts[0], [c]);
    } else {
      var a, b := parts[0], Join([c], parts[1..]);
      var s := a + [c] + b;
      assert parts[0] in parts;
      forall i | 0 <= i < |a| ensures !OccursAt(s, [c], i) {
        assert s[i] == a[i];
      }
      SplitPrefix(a, [c], b);
      forall p | p in parts[1..] ensures c !in p {
        assert p in parts;
      }
      SplitJoinChar(parts[1..], c);
      assert [a] + parts[1..] == parts;
    }
  }

  /** Splitting on a single character leaves that character in no piece. */
  lemma {:induction false} SplitCharPieces(s: string, c: char)
    ensures forall p :: p in Split(s, [c]) ==> c !in p
    decreases |s|
  {
    if |s| >= 1 {
      SplitCharPieces(s[1..], c);
      var rest := Split(s[1..], [c]);
      if s[..1] != [c] {
        assert s[0] != c;
        var r := Split(s, [c]);
        assert r == [[s[0]] + rest[0]] + rest[1..];
        forall p | p in r ensures c !in p {
          if p != [s[0]] + rest[0] {
            assert p in rest[1..];
          }
        }
      }
    }
  }

  function DigitChar(d: nat): char
    requires d < 10
  {
    ('0' as int + d) as char
  }

  /** `str(n)` for a natural number. */
  function NatToString(n: nat): (r: string)
    ensures |r| >= 1 && AllDigits(r)
    decreases n
  {
    if n < 10 then [DigitChar(n)] else NatToString(n / 10) + [DigitChar(n % 10)]
  }

  /** `str(i)` for an integer. */
  function IntToString(i: int): (r: string)
    ensures |r| >= 1
    ensures i >= 0 ==> AllDigits(r)
    ensures i < 0 ==> r[0] == '-' && AllDigits(r[1..])
  {
    if i < 0 then "-" + NatToString(-i) else NatToString(i)
  }

  /** `int(s)` for a string of decimal digits. */
  function DigitsValue(s: string): (n: nat)
    requires AllDigits(s)
    decreases |s|
  {
    if s == [] then 0 else DigitsValue(s[..|s| - 1]) * 10 + (s[|s| - 1] as int - '0' as int)
  }

  lemma {:induction false} DigitsValueBound(s: string)
    requires AllDigits(s)
    ensures DigitsValue(s) < Pow10(|s|)
    decreases |s|
  {
    if s != [] {
      DigitsValueBound(s[..|s| - 1]);
    }
  }

  function Pow10(k: nat): (p: nat)
    ensures p >= 1
  {
    if k == 0 then 1 else 10 * Pow10(k - 1)
  }

  /** A number below `10^k` is written with at most `k` digits. */
  lemma {:induction false} NatToStringShort(n: nat, k: nat)
    requires 1 <= k && n < Pow10(k)
    ensures |NatToString(n)| <= k
  {
    if n >= 10 {
      assert k >= 2;
      NatToStringShort(n / 10, k - 1);
    }
  }

  /** Parsing what `NatToString` prints gives the number back. */
  lemma {:induction false} NatToStringRoundTrip(n: nat)
    ensures DigitsValue(NatToString(n)) == n
    decreases n
  {
    if n >= 10 {
      NatToStringRoundTrip(n / 10);
      var s := NatToString(n);
      assert s[..|s| - 1] == NatToString(n / 10);
    }
  }
}
