/**
 * The JavaScript string operations the code uses: `trim`, `toLowerCase`,
 * `replace(/"/g, '')`, `includes`, `split` on one character, `join`, and
 * `String(n)` of a non-negative integer.
 */
module Text {
  import opened Seqs

  /**
   * The characters `String.prototype.trim` strips: the WhiteSpace and
   * LineTerminator code points of the ECMAScript Language Specification
   * (section 12.2 and 12.3 of ECMA-262): tab, vertical tab, form feed,
   * space, no-break space, zero width no-break space, the Unicode "Zs"
   * characters, and line feed, carriage return, line and paragraph separator.
   */
  predicate IsWhitespace(c: char) {
    || c == '\t' || c == '\n' || c == '\U{000B}' || c == '\U{000C}' || c == '\r'
    || c == ' ' || c == '\U{00A0}' || c == '\U{1680}'
    || ('\U{2000}' <= c <= '\U{200A}')
    || c == '\U{2028}' || c == '\U{2029}' || c == '\U{202F}' || c == '\U{205F}'
    || c == '\U{3000}' || c == '\U{FEFF}'
  }

  predicate AllWhitespace(s: string) {
    forall i :: 0 <= i < |s| ==> IsWhitespace(s[i])
  }

  /** Neither the first nor the last character is whitespace. */
  predicate IsTrimmed(s: string) {
    s == [] || (!IsWhitespace(s[0]) && !IsWhitespace(Last(s)))
  }

  function TrimStart(s: string): (r: string)
    ensures |r| <= |s| && r == s[|s| - |r|..]
    ensures AllWhitespace(s[..|s| - |r|])
    ensures r == [] || !IsWhitespace(r[0])
  {
    if s != [] && IsWhitespace(s[0]) then
      var r := TrimStart(s[1..]);
      assert s[..|s| - |r|] == [s[0]] + s[1..][..|s[1..]| - |r|];
      r
    else s
  }

  function TrimEnd(s: string): (r: string)
    ensures |r| <= |s| && r == s[..|r|]
    ensures AllWhitespace(s[|r|..])
    ensures r == [] || !IsWhitespace(Last(r))
  {
    if s != [] && IsWhitespace(Last(s)) then
      var r := TrimEnd(DropLast(s));
      assert s[|r|..] == DropLast(s)[|r|..] + [Last(s)];
      r
    else s
  }

  /** r is what is left of s once s[..i] and everything after r are cut off, all of it whitespace. */
  predicate TrimmedAt(s: string, r: string, i: nat) {
    && i + |r| <= |s|
    && s[i..i + |r|] == r
    && AllWhitespace(s[..i])
    && AllWhitespace(s[i + |r|..])
  }

  /**
   * `String.prototype.trim`: the result is the part of s left once the
   * whitespace at both ends is cut off.
   */
  function Trim(s: string): (r: string)
    ensures IsTrimmed(r)
    ensures exists i: nat :: TrimmedAt(s, r, i)
  {
    var t := TrimStart(s);
    var r := TrimEnd(t);
    var i := |s| - |t|;
    assert s[i..i + |r|] == r;
    assert s[i + |r|..] == t[|r|..];
    assert TrimmedAt(s, r, i);
    r
  }

  /** Trim yields the empty string exactly when s is all whitespace. */
  lemma TrimEmptyIff(s: string)
    ensures Trim(s) == [] <==> AllWhitespace(s)
  {
    var r := Trim(s);
    var i: nat :| TrimmedAt(s, r, i);
    if r == [] {
      forall k | 0 <= k < |s| ensures IsWhitespace(s[k]) {
        if k < i { assert s[..i][k] == s[k]; } else { assert s[i..][k - i] == s[k]; }
      }
    } else {
      assert s[i] == r[0];
    }
  }

  /** A string without whitespace at either end is its own trim. */
  lemma TrimOfTrimmed(s: string)
    requires IsTrimmed(s)
    ensures Trim(s) == s
  {
    var r := Trim(s);
    var i: nat :| TrimmedAt(s, r, i);
  }

  lemma TrimIdempotent(s: string)
    ensures Trim(Trim(s)) == Trim(s)
  {
    TrimOfTrimmed(Trim(s));
  }

  /** Every character of Trim(s) is a character of s. */
  lemma TrimChars(s: string)
    ensures forall c :: c in Trim(s) ==> c in s
  {
    var r := Trim(s);
    var i: nat :| TrimmedAt(s, r, i);
    forall c | c in r ensures c in s {
      var k :| 0 <= k < |r| && r[k] == c;
      assert s[i + k] == c;
    }
  }

  /** `toLowerCase` on one character, for the ASCII letters only. */
  function LowerChar(c: char): char {
    if 'A' <= c <= 'Z' then (c as int + 32) as char else c
  }

  /** `String.prototype.toLowerCase`, restricted to ASCII letters. */
  function ToLower(s: string): (r: string)
    ensures |r| == |s|
    ensures forall i :: 0 <= i < |r| ==> !('A' <= r[i] <= 'Z')
    ensures forall i :: 0 <= i < |r| && !('A' <= s[i] <= 'Z') ==> r[i] == s[i]
  {
    Map(LowerChar, s)
  }

  lemma ToLowerIdempotent(s: string)
    ensures ToLower(ToLower(s)) == ToLower(s)
  {
  }

  lemma ToLowerEmptyIff(s: string)
    ensures ToLower(s) == [] <==> s == []
  {
  }

  predicate IsNotQuote(c: char) {
    c != '"'
  }

  /** `s.replace(/"/g, '')`: s with every double quote removed. */
  function RemoveQuotes(s: string): (r: string)
    ensures '"' !in r
    ensures IsSubsequence(r, s)
    ensures '"' !in s ==> r == s
  {
    FilterIsSubsequence(IsNotQuote, s);
    if '"' !in s then FilterKeepsAll(IsNotQuote, s); Filter(IsNotQuote, s)
    else Filter(IsNotQuote, s)
  }

  lemma RemoveQuotesSnoc(s: string, c: char)
    ensures RemoveQuotes(s + [c]) == RemoveQuotes(s) + (if c == '"' then [] else [c])
  {
    FilterSnoc(IsNotQuote, s, c);
  }

  /** The needle occurs in the haystack starting at position i. */
  predicate OccursAt(hay: string, needle: string, i: nat) {
    i + |needle| <= |hay| && hay[i..i + |needle|] == needle
  }

  /** `String.prototype.includes`. */
  function Contains(hay: string, needle: string): (r: bool)
    ensures r <==> exists i: nat :: OccursAt(hay, needle, i)
    decreases |hay|
  {
    if needle <= hay then
      assert OccursAt(hay, needle, 0);
      true
    else if hay == [] then
      assert forall i: nat :: !OccursAt(hay, needle, i);
      false
    else
      var r := Contains(hay[1..], needle);
      assert forall i: nat :: OccursAt(hay[1..], needle, i) <==> OccursAt(hay, needle, i + 1);
      assert !OccursAt(hay, needle, 0);
      assert forall i: nat :: OccursAt(hay, needle, i) ==> i > 0 && OccursAt(hay[1..], needle, i - 1);
      r
  }

  /** `s.split(c)` for a one-character separator: the text between separators. */
  function Split(s: string, c: char): (r: seq<string>)
    ensures |r| >= 1
    ensures forall k :: 0 <= k < |r| ==> c !in r[k]
    decreases |s|
  {
    if s == [] then [""]
    else
      var p := Split(DropLast(s), c);
      if Last(s) == c then p + [""]
      else DropLast(p) + [Last(p) + [Last(s)]]
  }

  /** `parts.join(sep)`. */
  function Join(parts: seq<string>, sep: string): string
    decreases |parts|
  {
    if |parts| == 0 then ""
    else if |parts| == 1 then parts[0]
    else Join(DropLast(parts), sep) + sep + Last(parts)
  }

  /** The joined text begins with the first part and a separator, and ends with a separator and the last part. */
  lemma {:induction false} JoinEnds(parts: seq<string>, sep: string)
    requires |parts| >= 2
    ensures parts[0] + sep <= Join(parts, sep)
    ensures |Join(parts, sep)| >= |sep| + |Last(parts)|
    ensures Join(parts, sep)[|Join(parts, sep)| - |sep| - |Last(parts)|..] == sep + Last(parts)
    decreases |parts|
  {
    var init := DropLast(parts);
    if |parts| > 2 {
      JoinEnds(init, sep);
      assert init[0] == parts[0];
    }
  }

  /** Appending to the last part appends to the joined text. */
  lemma JoinExtendLast(parts: seq<string>, sep: string, x: string)
    requires |parts| >= 1
    ensures Join(DropLast(parts) + [Last(parts) + x], sep) == Join(parts, sep) + x
  {
    var q := DropLast(parts) + [Last(parts) + x];
    assert DropLast(q) == DropLast(parts);
  }

  /** Appending an empty part appends one separator to the joined text. */
  lemma JoinEmptyLast(parts: seq<string>, sep: string)
    requires |parts| >= 1
    ensures Join(parts + [""], sep) == Join(parts, sep) + sep
  {
    assert DropLast(parts + [""]) == parts;
  }

  /** Joining the pieces of a split with the separator gives back the string. */
  lemma {:induction false} JoinSplit(s: string, c: char)
    ensures Join(Split(s, c), [c]) == s
    decreases |s|
  {
    if s != [] {
      var init, x := DropLast(s), Last(s);
      var p := Split(init, c);
      JoinSplit(init, c);
      if x == c {
        assert Split(s, c) == p + [""];
        JoinEmptyLast(p, [c]);
      } else {
        assert Split(s, c) == DropLast(p) + [Last(p) + [x]];
        JoinExtendLast(p, [c], [x]);
      }
      assert init + [x] == s;
    }
  }

  /** A string without the separator is one piece. */
  lemma {:induction false} SplitWithoutSeparator(s: string, c: char)
    requires c !in s
    ensures Split(s, c) == [s]
    decreases |s|
  {
    if s != [] {
      var init := DropLast(s);
      assert c !in init by {
        assert forall k :: 0 <= k < |init| ==> init[k] == s[k];
      }
      assert Last(s) != c;
      SplitWithoutSeparator(init, c);
      assert Split(s, c) == DropLast([init]) + [init + [Last(s)]];
      assert init + [Last(s)] == s;
    }
  }

  /** Splitting at a separator splits the two sides independently. */
  lemma {:induction false} SplitAtSeparator(a: string, c: char, b: string)
    ensures Split(a + [c] + b, c) == Split(a, c) + Split(b, c)
    decreases |b|
  {
    var s := a + [c] + b;
    if b == [] {
      assert s == a + [c];
      SnocParts(a, c);
    } else {
      SplitAtSeparator(a, c, DropLast(b));
      assert DropLast(s) == a + [c] + DropLast(b);
      assert Last(s) == Last(b);
      var pa := Split(a, c);
      var pb := Split(DropLast(b), c);
      assert Split(DropLast(s), c) == pa + pb;
      if Last(b) == c {
        assert Split(s, c) == (pa + pb) + [""];
        assert Split(b, c) == pb + [""];
      } else {
        assert Split(s, c) == DropLast(pa + pb) + [Last(pa + pb) + [Last(b)]];
        assert Split(b, c) == DropLast(pb) + [Last(pb) + [Last(b)]];
        assert DropLast(pa + pb) == pa + DropLast(pb);
      }
    }
  }

  /** Splitting parts joined with a separator they do not contain gives the parts back. */
  lemma {:induction false} SplitJoin(parts: seq<string>, c: char)
    requires |parts| >= 1
    requires forall k :: 0 <= k < |parts| ==> c !in parts[k]
    ensures Split(Join(parts, [c]), c) == parts
    decreases |parts|
  {
    if |parts| == 1 {
      SplitWithoutSeparator(parts[0], c);
    } else {
      SplitJoin(DropLast(parts), c);
      SplitAtSeparator(Join(DropLast(parts), [c]), c, Last(parts));
      SplitWithoutSeparator(Last(parts), c);
      assert DropLast(parts) + [Last(parts)] == parts;
    }
  }

  /** Splitting parts joined with the separator gives at least one piece per part. */
  lemma {:induction false} SplitJoinLength(parts: seq<string>, c: char)
    requires |parts| >= 1
    ensures |Split(Join(parts, [c]), c)| >= |parts|
    decreases |parts|
  {
    if |parts| > 1 {
      SplitJoinLength(DropLast(parts), c);
      SplitAtSeparator(Join(DropLast(parts), [c]), c, Last(parts));
    }
  }

  /** A last part without the separator is the last piece. */
  lemma SplitJoinLast(parts: seq<string>, c: char)
    requires |parts| >= 1 && c !in Last(parts)
    ensures Last(Split(Join(parts, [c]), c)) == Last(parts)
  {
    SplitWithoutSeparator(Last(parts), c);
    if |parts| > 1 {
      SplitAtSeparator(Join(DropLast(parts), [c]), c, Last(parts));
    }
  }

  /** Leading parts without the separator are the leading pieces. */
  lemma {:induction false} SplitJoinPrefix(parts: seq<string>, c: char, k: nat)
    requires 1 <= k <= |parts|
    requires forall j :: 0 <= j < k ==> c !in parts[j]
    ensures |Split(Join(parts, [c]), c)| >= k
    ensures Split(Join(parts, [c]), c)[..k] == parts[..k]
    decreases |parts|
  {
    SplitJoinLength(parts, c);
    if |parts| == k {
      SplitJoin(parts, c);
    } else {
      var init := DropLast(parts);
      SplitJoinPrefix(init, c, k);
      SplitAtSeparator(Join(init, [c]), c, Last(parts));
      var p := Split(Join(init, [c]), c);
      assert (p + Split(Last(parts), c))[..k] == p[..k];
    }
  }

  /** Each piece of a split is made of characters of the string. */
  lemma {:induction false} SplitPiecesChars(s: string, c: char)
    ensures forall k, x :: 0 <= k < |Split(s, c)| && x in Split(s, c)[k] ==> x in s
    decreases |s|
  {
    if s != [] {
      SplitPiecesChars(DropLast(s), c);
      assert s == DropLast(s) + [Last(s)];
    }
  }

  /** A character in neither the parts nor the separator is not in the joined text. */
  lemma {:induction false} JoinAvoids(parts: seq<string>, sep: string, c: char)
    requires c !in sep
    requires forall k :: 0 <= k < |parts| ==> c !in parts[k]
    ensures c !in Join(parts, sep)
    decreases |parts|
  {
    if |parts| > 1 {
      JoinAvoids(DropLast(parts), sep, c);
    }
  }

  function DigitChar(d: nat): char
    requires d < 10
  {
    ['0', '1', '2', '3', '4', '5', '6', '7', '8', '9'][d]
  }

  predicate IsDigit(c: char) {
    '0' <= c <= '9'
  }

  function DigitValue(c: char): nat
    requires IsDigit(c)
  {
    c as int - '0' as int
  }

  /** `String(n)` for a non-negative integer: its decimal digits, no leading zero. */
  function NatToString(n: nat): (r: string)
    ensures |r| >= 1
    ensures forall i :: 0 <= i < |r| ==> IsDigit(r[i])
    ensures r[0] == '0' ==> n == 0
    decreases n
  {
    if n < 10 then [DigitChar(n)]
    else NatToString(n / 10) + [DigitChar(n % 10)]
  }

  /** The number a string of decimal digits denotes. */
  function ParseDecimal(s: string): nat
    requires forall i :: 0 <= i < |s| ==> IsDigit(s[i])
    decreases |s|
  {
    if s == [] then 0 else 10 * ParseDecimal(DropLast(s)) + DigitValue(Last(s))
  }

  /** Reading back the decimal string of n gives n. */
  lemma {:induction false} ParseNatToString(n: nat)
    ensures ParseDecimal(NatToString(n)) == n
    decreases n
  {
    if n >= 10 {
      ParseNatToString(n / 10);
      var s := NatToString(n);
      assert DropLast(s) == NatToString(n / 10);
    }
  }
}
