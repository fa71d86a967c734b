/** Python string behaviour that the pipeline relies on: str.isspace, str.strip,
    str.split('\n'), str.lower (ASCII), decimal rendering of an int, and a few
    sequence helpers used by the chunker and the file naming. */
module Text {

  datatype Option<T> = None | Some(value: T)

  /** One byte of an audio file or of a provider's reply. */
  newtype byte = x: int | 0 <= x < 256

  /** Python's str.isspace() for one character (the complete Unicode list). */
  predicate IsSpace(c: char) {
    var n := c as int;
    n == 32 || 9 <= n <= 13 || 28 <= n <= 31 || n == 0x85 || n == 0xA0 || n == 0x1680
    || 0x2000 <= n <= 0x200A || n == 0x2028 || n == 0x2029 || n == 0x202F || n == 0x205F
    || n == 0x3000
  }

  /** `not s.strip()` in Python: the string holds only whitespace (or nothing). */
  predicate Blank(s: string) {
    forall k :: 0 <= k < |s| ==> IsSpace(s[k])
  }

  predicate NoNewline(s: string) {
    forall k :: 0 <= k < |s| ==> s[k] != '\n'
  }

  predicate HasPrefix(s: string, p: string) {
    |p| <= |s| && s[..|p|] == p
  }

  predicate HasSuffix(s: string, p: string) {
    |p| <= |s| && s[|s| - |p|..] == p
  }

  /** a + b + c starts with a and ends with c. */
  lemma Affixes(a: string, b: string, c: string)
    ensures HasPrefix(a + b + c, a) && HasSuffix(a + b + c, c)
  {
    assert (a + b + c)[..|a|] == a;
    assert (a + b + c)[|a + b + c| - |c|..] == c;
  }

  /** A suffix of `s` is a suffix of anything that ends with `s`. */
  lemma SuffixOfAppend(x: string, s: string, c: string)
    requires HasSuffix(s, c)
    ensures HasSuffix(x + s, c)
  {
    assert (x + s)[|x + s| - |c|..] == s[|s| - |c|..];
  }

  /** Removes leading whitespace; the result is a suffix of `s`. */
  function StripLeft(s: string): (r: string)
    ensures |r| <= |s| && r == s[|s| - |r|..]
    ensures r != [] ==> !IsSpace(r[0])
    ensures r == [] <==> Blank(s)
    ensures |s| > 0 && !IsSpace(s[0]) ==> r == s
  {
    if |s| > 0 && IsSpace(s[0]) then StripLeft(s[1..]) else s
  }

  /** Removes trailing whitespace; the result is a prefix of `s`. */
  function StripRight(s: string): (r: string)
    ensures |r| <= |s| && r == s[..|r|]
    ensures r != [] ==> !IsSpace(r[|r| - 1])
    ensures r == [] <==> Blank(s)
    ensures |s| > 0 && !IsSpace(s[|s| - 1]) ==> r == s
  {
    if |s| > 0 && IsSpace(s[|s| - 1]) then StripRight(s[..|s| - 1]) else s
  }

  /** Python's str.strip() with no argument. */
  function Strip(s: string): (r: string)
    ensures |r| <= |s|
    ensures r == [] <==> Blank(s)
    ensures r != [] ==> !IsSpace(r[0]) && !IsSpace(r[|r| - 1])
    ensures NoNewline(s) ==> NoNewline(r)
    ensures |s| > 0 && !IsSpace(s[0]) && !IsSpace(s[|s| - 1]) ==> r == s
  {
    var left := StripLeft(s);
    assert left != [] ==> !IsSpace(left[0]);
    StripRight(left)
  }

  /** StripLeft removes whitespace and nothing else. */
  lemma {:induction false} StripLeftSpaces(s: string)
    ensures forall k :: 0 <= k < |s| - |StripLeft(s)| ==> IsSpace(s[k])
  {
    if |s| > 0 && IsSpace(s[0]) {
      StripLeftSpaces(s[1..]);
      assert forall k :: 1 <= k < |s| ==> s[k] == s[1..][k - 1];
    }
  }

  /** StripRight removes whitespace and nothing else. */
  lemma {:induction false} StripRightSpaces(s: string)
    ensures forall k :: |StripRight(s)| <= k < |s| ==> IsSpace(s[k])
  {
    if |s| > 0 && IsSpace(s[|s| - 1]) {
      StripRightSpaces(s[..|s| - 1]);
    }
  }

  /** Strip keeps a middle piece of `s`, with only whitespace outside it. */
  lemma StripMiddle(s: string)
    ensures MiddleOf(s, |s| - |StripLeft(s)|, Strip(s), IsSpace)
  {
    var m := StripLeft(s);
    var r := StripRight(m);
    assert Strip(s) == r;
    assert MiddleOf(s, |s| - |m|, r, IsSpace) by {
      StripLeftSpaces(s);
      StripRightSpaces(m);
      PrefixOfSuffix(s, m, r, IsSpace);
    }
  }

  /** `r` is the slice of `s` that starts at `i`, and every element outside it has
      the property `outside`. */
  predicate MiddleOf<T(==)>(s: seq<T>, i: int, r: seq<T>, outside: T -> bool) {
    && 0 <= i && i + |r| <= |s| && r == s[i..i + |r|]
    && (forall k :: 0 <= k < i ==> outside(s[k]))
    && (forall k :: i + |r| <= k < |s| ==> outside(s[k]))
  }

  /** A prefix `r` of a suffix `m` of `s` is a middle slice of `s` when the elements
      cut off on either side all have the property `outside`. */
  lemma PrefixOfSuffix<T>(s: seq<T>, m: seq<T>, r: seq<T>, outside: T -> bool)
    requires |m| <= |s| && m == s[|s| - |m|..]
    requires forall k :: 0 <= k < |s| - |m| ==> outside(s[k])
    requires |r| <= |m| && r == m[..|r|]
    requires forall k :: |r| <= k < |m| ==> outside(m[k])
    ensures MiddleOf(s, |s| - |m|, r, outside)
  {
    var i := |s| - |m|;
    assert r == s[i..][..|r|];
    forall k | i + |r| <= k < |s| ensures outside(s[k]) {
      assert s[k] == m[k - i];
    }
  }

  /** Dropping the last element of a non-empty suffix of `s` gives a suffix of `s`
      without its last element. */
  lemma SuffixDropLast<T>(s: seq<T>, m: seq<T>)
    requires 0 < |m| <= |s| && m == s[|s| - |m|..]
    ensures m[..|m| - 1] == s[..|s| - 1][|s| - |m|..]
  {
  }

  /** A stripped, non-blank line followed by a newline strips back to the line. */
  lemma StripLineBreak(x: string)
    requires x != [] && !IsSpace(x[0]) && !IsSpace(x[|x| - 1])
    ensures Strip(x + "\n") == x
  {
    var s := x + "\n";
    assert StripLeft(s) == s;
    assert s[..|s| - 1] == x;
    assert StripRight(s) == StripRight(x);
  }

  /** s[:n] in Python. */
  function Cut(s: string, n: nat): (r: string)
    ensures |r| <= n && |r| <= |s| && r == s[..|r|]
    ensures |s| <= n ==> r == s
  {
    if |s| <= n then s else s[..n]
  }

  /** Python's s.split('\n'): the pieces between newlines, always at least one. */
  function Split(s: string): (r: seq<string>)
    ensures |r| >= 1
    ensures forall j :: 0 <= j < |r| ==> NoNewline(r[j])
  {
    if s == [] then [[]]
    else
      var rest := Split(s[1..]);
      if s[0] == '\n' then [[]] + rest else [[s[0]] + rest[0]] + rest[1..]
  }

  /** '\n'.join(lines): the inverse of Split. */
  function JoinLines(lines: seq<string>): string
    requires |lines| >= 1
  {
    if |lines| == 1 then lines[0] else lines[0] + "\n" + JoinLines(lines[1..])
  }

  lemma {:induction false} SplitJoin(s: string)
    ensures JoinLines(Split(s)) == s
  {
    if s != [] {
      SplitJoin(s[1..]);
      var rest := Split(s[1..]);
      if s[0] == '\n' {
        assert ([[]] + rest)[1..] == rest;
      } else {
        var r := [[s[0]] + rest[0]] + rest[1..];
        if |rest| == 1 {
          assert r == [[s[0]] + rest[0]];
        } else {
          assert r[1..] == rest[1..];
          assert JoinLines(rest) == rest[0] + "\n" + JoinLines(rest[1..]);
        }
      }
    }
  }

  /** Text is blank exactly when every line of it is. */
  lemma {:induction false} BlankSplit(s: string)
    ensures Blank(s) <==> AllBlank(Split(s))
  {
    if s != [] {
      var t := s[1..];
      BlankSplit(t);
      var rest := Split(t);
      assert Blank(t) <==> AllBlank(rest);
      assert s == [s[0]] + t;
      BlankCons(s[0], t);
      assert Blank(s) <==> IsSpace(s[0]) && AllBlank(rest);
      if s[0] == '\n' {
        assert IsSpace(s[0]);
        assert Split(s) == [[]] + rest;
        AllBlankCons([], rest);
      } else {
        var first := [s[0]] + rest[0];
        assert Split(s) == [first] + rest[1..];
        BlankCons(s[0], rest[0]);
        AllBlankCons(first, rest[1..]);
        assert rest == [rest[0]] + rest[1..];
        AllBlankCons(rest[0], rest[1..]);
      }
    }
  }

  predicate AllBlank(lines: seq<string>) {
    forall j :: 0 <= j < |lines| ==> Blank(lines[j])
  }

  lemma BlankCons(c: char, t: string)
    ensures Blank([c] + t) <==> IsSpace(c) && Blank(t)
  {
    var s := [c] + t;
    if Blank(s) {
      assert IsSpace(s[0]);
      forall k | 0 <= k < |t| ensures IsSpace(t[k]) {
        assert t[k] == s[k + 1];
      }
    }
    if IsSpace(c) && Blank(t) {
      forall k | 0 <= k < |s| ensures IsSpace(s[k]) {
        if k > 0 { assert s[k] == t[k - 1]; }
      }
    }
  }

  lemma AllBlankSnoc(init: seq<string>, x: string)
    ensures AllBlank(init + [x]) <==> AllBlank(init) && Blank(x)
  {
    var lines := init + [x];
    if AllBlank(lines) {
      assert Blank(lines[|init|]);
      forall j | 0 <= j < |init| ensures Blank(init[j]) {
        assert init[j] == lines[j];
      }
    }
  }

  lemma AllBlankCons(x: string, rest: seq<string>)
    ensures AllBlank([x] + rest) <==> Blank(x) && AllBlank(rest)
  {
    var lines := [x] + rest;
    if AllBlank(lines) {
      assert Blank(lines[0]);
      forall j | 0 <= j < |rest| ensures Blank(rest[j]) {
        assert rest[j] == lines[j + 1];
      }
    }
    if Blank(x) && AllBlank(rest) {
      forall j | 0 <= j < |lines| ensures Blank(lines[j]) {
        if j > 0 { assert lines[j] == rest[j - 1]; }
      }
    }
  }

  /** The string with every '\n' deleted. */
  function RemoveNewlines(s: string): (r: string)
    ensures NoNewline(r)
    ensures |r| <= |s|
  {
    if s == [] then []
    else if s[|s| - 1] == '\n' then RemoveNewlines(s[..|s| - 1])
    else RemoveNewlines(s[..|s| - 1]) + [s[|s| - 1]]
  }

  lemma {:induction false} RemoveNewlinesAppend(a: string, b: string)
    ensures RemoveNewlines(a + b) == RemoveNewlines(a) + RemoveNewlines(b)
    decreases |b|
  {
    if b != [] {
      DropLastOfAppend(a, b);
      RemoveNewlinesAppend(a, b[..|b| - 1]);
    } else {
      assert a + b == a;
    }
  }

  lemma {:induction false} RemoveNewlinesNoop(s: string)
    requires NoNewline(s)
    ensures RemoveNewlines(s) == s
  {
    if s != [] {
      RemoveNewlinesNoop(s[..|s| - 1]);
    }
  }

  lemma DropLastOfAppend<T>(a: seq<T>, b: seq<T>)
    requires b != []
    ensures (a + b)[..|a + b| - 1] == a + b[..|b| - 1]
    ensures (a + b)[|a + b| - 1] == b[|b| - 1]
  {
  }

  lemma InitLast<T>(s: seq<T>)
    requires s != []
    ensures s[..|s| - 1] + [s[|s| - 1]] == s
  {
  }

  lemma AppendAssoc<T>(x: seq<T>, y: seq<T>, z: seq<T>)
    ensures (x + y) + z == x + (y + z)
  {
  }

  /** The strings of `ss` written one after another, in order. */
  function Concat(ss: seq<string>): string {
    if ss == [] then [] else Concat(ss[..|ss| - 1]) + ss[|ss| - 1]
  }

  lemma {:induction false} ConcatAppend(a: seq<string>, b: seq<string>)
    ensures Concat(a + b) == Concat(a) + Concat(b)
    decreases |b|
  {
    if b == [] {
      assert a + b == a;
    } else {
      DropLastOfAppend(a, b);
      ConcatAppend(a, b[..|b| - 1]);
    }
  }

  function DigitChar(d: nat): (c: char)
    requires d < 10
    ensures '0' <= c <= '9'
  {
    ('0' as int + d) as char
  }

  /** str(n) for a non-negative int: its decimal digits, no leading zeros. */
  function NatToString(n: nat): (s: string)
    ensures |s| >= 1
    ensures forall k :: 0 <= k < |s| ==> '0' <= s[k] <= '9'
    ensures (|s| == 1) == (n < 10)
  {
    if n < 10 then [DigitChar(n)] else NatToString(n / 10) + [DigitChar(n % 10)]
  }

  /** Different numbers are written differently. */
  lemma {:induction false} NatToStringInjective(m: nat, n: nat)
    requires NatToString(m) == NatToString(n)
    ensures m == n
  {
    if m >= 10 && n >= 10 {
      var sm, sn := NatToString(m), NatToString(n);
      assert sm[..|sm| - 1] == NatToString(m / 10);
      assert sn[..|sn| - 1] == NatToString(n / 10);
      NatToStringInjective(m / 10, n / 10);
      assert DigitChar(m % 10) == sm[|sm| - 1] == sn[|sn| - 1] == DigitChar(n % 10);
    }
  }

  /** str.lower() on ASCII letters; other characters are left alone. */
  function LowerChar(c: char): char {
    if 'A' <= c <= 'Z' then (c as int + 32) as char else c
  }

  function Lower(s: string): (r: string)
    ensures |r| == |s|
    ensures forall k :: 0 <= k < |s| ==> r[k] == LowerChar(s[k])
  {
    if s == [] then [] else [LowerChar(s[0])] + Lower(s[1..])
  }
}
