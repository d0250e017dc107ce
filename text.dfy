/**
 * The Python string operations the core relies on: str.strip, str.split with a
 * separator, re.split on a class of single characters, str.join, str.replace,
 * the `in` substring test, str.lower/str.upper on ASCII letters, int() on
 * decimal text and str() on integers; and dict.keys()/dict.values() on a dict
 * kept, in insertion order, as a sequence of pairs.
 */
module Text {
  import opened Wrappers

  // ---------------------------------------------------------------- whitespace

  /** The characters str.strip() and int() treat as whitespace: str.isspace(). */
  predicate IsSpace(c: char) {
    ('\t' <= c <= '\r') || ('\U{1C}' <= c <= ' ') || c == '\U{85}' || c == '\U{A0}' || c == '\U{1680}'
    || ('\U{2000}' <= c <= '\U{200A}') || c == '\U{2028}' || c == '\U{2029}' || c == '\U{202F}'
    || c == '\U{205F}' || c == '\U{3000}'
  }

  predicate AllSpaces(s: string) {
    forall i | 0 <= i < |s| :: IsSpace(s[i])
  }

  /** str.lstrip() */
  function StripLeft(s: string): (r: string)
    ensures |r| <= |s|
    ensures r == [] || !IsSpace(r[0])
  {
    if s != [] && IsSpace(s[0]) then StripLeft(s[1..]) else s
  }

  /** str.rstrip() */
  function StripRight(s: string): (r: string)
    ensures |r| <= |s|
    ensures r == [] || !IsSpace(r[|r| - 1])
  {
    if s != [] && IsSpace(s[|s| - 1]) then StripRight(s[..|s| - 1]) else s
  }

  /** lstrip() removes a run of whitespace from the front and nothing else. */
  lemma {:induction false} StripLeftShape(s: string)
    ensures s[|s| - |StripLeft(s)|..] == StripLeft(s)
    ensures AllSpaces(s[..|s| - |StripLeft(s)|])
  {
    if s != [] && IsSpace(s[0]) {
      StripLeftShape(s[1..]);
    }
  }

  /** rstrip() removes a run of whitespace from the back and nothing else. */
  lemma {:induction false} StripRightShape(s: string)
    ensures s[..|StripRight(s)|] == StripRight(s)
    ensures AllSpaces(s[|StripRight(s)|..])
  {
    if s != [] && IsSpace(s[|s| - 1]) {
      StripRightShape(s[..|s| - 1]);
    }
  }

  /** str.strip() */
  function Strip(s: string): string {
    StripRight(StripLeft(s))
  }

  /** A string that neither starts nor ends with whitespace is left alone by strip(). */
  predicate Trimmed(s: string) {
    s == [] || (!IsSpace(s[0]) && !IsSpace(s[|s| - 1]))
  }

  lemma StripTrimmed(s: string)
    requires Trimmed(s)
    ensures Strip(s) == s
  {
  }

  lemma {:induction false} StripRightSpaces(t: string, w: string)
    requires AllSpaces(w)
    ensures StripRight(t + w) == StripRight(t)
    decreases |w|
  {
    if w != [] {
      var w' := w[..|w| - 1];
      assert (t + w)[..|t + w| - 1] == t + w';
      StripRightSpaces(t, w');
    } else {
      assert t + w == t;
    }
  }

  lemma {:induction false} StripLeftSpaces(w: string, t: string)
    requires AllSpaces(w)
    ensures StripLeft(w + t) == StripLeft(t)
    decreases |w|
  {
    if w != [] {
      assert (w + t)[1..] == w[1..] + t;
      StripLeftSpaces(w[1..], t);
    } else {
      assert w + t == t;
    }
  }

  /** strip() undoes padding a trimmed string with whitespace on both sides. */
  lemma StripPadded(lead: string, t: string, trail: string)
    requires AllSpaces(lead) && AllSpaces(trail) && Trimmed(t)
    ensures Strip(lead + t + trail) == t
  {
    assert lead + t + trail == lead + (t + trail);
    StripLeftSpaces(lead, t + trail);
    if t == [] {
      assert t + trail == trail + [];
      StripLeftSpaces(trail, []);
    } else {
      assert StripLeft(t + trail) == t + trail;
      StripRightSpaces(t, trail);
    }
  }

  /** A character that is not whitespace does not occur in a run of whitespace. */
  lemma SpacesExclude(w: string, c: char)
    requires AllSpaces(w) && !IsSpace(c)
    ensures c !in w
  {
    assert forall i | 0 <= i < |w| :: w[i] != c;
  }

  // ---------------------------------------------------------------- search

  function CountChar(s: string, c: char): nat {
    if s == [] then 0 else (if s[0] == c then 1 else 0) + CountChar(s[1..], c)
  }

  lemma {:induction false} CountCharAppend(a: string, b: string, c: char)
    ensures CountChar(a + b, c) == CountChar(a, c) + CountChar(b, c)
  {
    if a == [] {
      assert a + b == b;
    } else {
      assert (a + b)[1..] == a[1..] + b;
      CountCharAppend(a[1..], b, c);
    }
  }

  lemma {:induction false} CountCharAbsent(s: string, c: char)
    requires c !in s
    ensures CountChar(s, c) == 0
  {
    if s != [] {
      CountCharAbsent(s[1..], c);
    }
  }

  predicate StartsWith(s: string, prefix: string) {
    |prefix| <= |s| && s[..|prefix|] == prefix
  }

  predicate EndsWith(s: string, suffix: string) {
    |suffix| <= |s| && s[|s| - |suffix|..] == suffix
  }

  /** Python's `sub in s` for strings. */
  predicate Contains(s: string, sub: string)
    decreases |s|
  {
    StartsWith(s, sub) || (s != [] && Contains(s[1..], sub))
  }

  // ---------------------------------------------------------------- split and join

  /** str.split(sep) for a non-empty separator, scanning left to right; `cur` is the part being built. */
  function SplitFrom(s: string, sep: string, cur: string): (r: seq<string>)
    requires |sep| > 0
    ensures |r| >= 1
    decreases |s|
  {
    if |s| < |sep| then [cur + s]
    else if s[..|sep|] == sep then [cur] + SplitFrom(s[|sep|..], sep, "")
    else SplitFrom(s[1..], sep, cur + [s[0]])
  }

  /** s.split(sep) */
  function Split(s: string, sep: string): seq<string>
    requires |sep| > 0
  {
    SplitFrom(s, sep, "")
  }

  // ---------------------------------------------------------------- dictionaries

  /** dict.keys() of a dict held as its (key, value) pairs in insertion order. */
  function Keys<K, V>(d: seq<(K, V)>): (r: seq<K>)
    ensures |r| == |d| && forall i | 0 <= i < |d| :: r[i] == d[i].0
  {
    seq(|d|, i requires 0 <= i < |d| => d[i].0)
  }

  /** dict.values(), in the same order. */
  function Values<K, V>(d: seq<(K, V)>): (r: seq<V>)
    ensures |r| == |d| && forall i | 0 <= i < |d| :: r[i] == d[i].1
  {
    seq(|d|, i requires 0 <= i < |d| => d[i].1)
  }

  /** sep.join(parts) */
  function Join(parts: seq<string>, sep: string): string {
    if |parts| == 0 then ""
    else if |parts| == 1 then parts[0]
    else parts[0] + sep + Join(parts[1..], sep)
  }

  lemma JoinTwo(a: string, b: string, sep: string)
    ensures Join([a, b], sep) == a + sep + b
  {
    assert [a, b][1..] == [b];
  }

  lemma JoinThree(a: string, b: string, c: string, sep: string)
    ensures Join([a, b, c], sep) == a + sep + b + sep + c
  {
    assert [a, b, c][1..] == [b, c];
    JoinTwo(b, c, sep);
  }

  /** Joining one more part adds the separator and the part at the end. */
  lemma {:induction false} JoinAppend(parts: seq<string>, x: string, sep: string)
    requires |parts| >= 1
    ensures Join(parts + [x], sep) == Join(parts, sep) + sep + x
    decreases |parts|
  {
    if |parts| == 1 {
      assert (parts + [x])[1..] == [x];
    } else {
      assert (parts + [x])[1..] == parts[1..] + [x];
      JoinAppend(parts[1..], x, sep);
    }
  }

  /** With an empty separator, joining is concatenation: it distributes over `+`. */
  lemma {:induction false} ConcatAppend(a: seq<string>, b: seq<string>)
    ensures Join(a + b, "") == Join(a, "") + Join(b, "")
    decreases |a|
  {
    if a == [] {
      assert a + b == b;
    } else if b == [] {
      assert a + b == a;
    } else if |a| == 1 {
      assert (a + b)[1..] == b;
    } else {
      assert (a + b)[1..] == a[1..] + b;
      ConcatAppend(a[1..], b);
    }
  }

  /** No part contains the separator's first character. */
  predicate FreeOf(parts: seq<string>, c: char) {
    forall i | 0 <= i < |parts| :: c !in parts[i]
  }

  /** Joining parts that lack a character, with a separator that lacks it, gives a text that lacks it. */
  lemma {:induction false} JoinFree(parts: seq<string>, sep: string, c: char)
    requires FreeOf(parts, c) && c !in sep
    ensures c !in Join(parts, sep)
    decreases |parts|
  {
    if |parts| > 1 {
      assert FreeOf(parts[1..], c) by {
        forall i | 0 <= i < |parts| - 1 ensures c !in parts[1..][i] {
          assert parts[1..][i] == parts[i + 1];
        }
      }
      JoinFree(parts[1..], sep, c);
    }
  }

  lemma {:induction false} SplitFromShift(p: string, rest: string, sep: string, cur: string)
    requires |sep| > 0 && sep[0] !in p
    ensures SplitFrom(p + rest, sep, cur) == SplitFrom(rest, sep, cur + p)
    decreases |p|
  {
    if p == [] {
      assert p + rest == rest && cur + p == cur;
    } else {
      var s := p + rest;
      assert s[0] == p[0];
      if |s| < |sep| {
        assert cur + s == (cur + p) + rest;
      } else {
        assert s[..|sep|][0] == p[0];
        assert s[1..] == p[1..] + rest;
        SplitFromShift(p[1..], rest, sep, cur + [p[0]]);
        assert cur + [p[0]] + p[1..] == cur + p;
      }
    }
  }

  lemma {:induction false} SplitFromJoin(parts: seq<string>, sep: string)
    requires |sep| > 0 && |parts| >= 1 && FreeOf(parts, sep[0])
    ensures SplitFrom(Join(parts, sep), sep, "") == parts
    decreases |parts|
  {
    if |parts| == 1 {
      SplitFromShift(parts[0], "", sep, "");
      assert parts[0] + "" == parts[0];
      assert "" + parts[0] == parts[0];
    } else {
      var rest := Join(parts[1..], sep);
      assert Join(parts, sep) == parts[0] + (sep + rest);
      SplitFromShift(parts[0], sep + rest, sep, "");
      assert "" + parts[0] == parts[0];
      assert (sep + rest)[..|sep|] == sep;
      assert (sep + rest)[|sep|..] == rest;
      SplitFromJoin(parts[1..], sep);
    }
  }

  /** Splitting a join gives the parts back, when no part contains the separator's first character. */
  lemma SplitJoin(parts: seq<string>, sep: string)
    requires |sep| > 0 && |parts| >= 1 && FreeOf(parts, sep[0])
    ensures Split(Join(parts, sep), sep) == parts
  {
    SplitFromJoin(parts, sep);
  }

  /** A text without the separator's first character splits into itself alone. */
  lemma SplitAbsent(s: string, sep: string)
    requires |sep| > 0 && sep[0] !in s
    ensures Split(s, sep) == [s]
  {
    SplitFromShift(s, "", sep, "");
    assert s + "" == s && "" + s == s;
  }

  lemma {:induction false} SplitFromCount(s: string, c: char, cur: string)
    ensures |SplitFrom(s, [c], cur)| == CountChar(s, c) + 1
    decreases |s|
  {
    if |s| >= 1 {
      if s[..1] == [c] {
        assert s[0] == c;
        SplitFromCount(s[1..], c, "");
      } else {
        assert s[0] != c;
        SplitFromCount(s[1..], c, cur + [s[0]]);
      }
    }
  }

  /** s.split(c) has one part more than s has occurrences of c. */
  lemma SplitCount(s: string, c: char)
    ensures |Split(s, [c])| == CountChar(s, c) + 1
  {
    SplitFromCount(s, c, "");
  }

  /** re.split on a class of single characters (the pattern "a|b" with one-character alternatives). */
  function SplitAnyFrom(s: string, seps: set<char>, cur: string): (r: seq<string>)
    ensures |r| >= 1
    decreases |s|
  {
    if s == [] then [cur]
    else if s[0] in seps then [cur] + SplitAnyFrom(s[1..], seps, "")
    else SplitAnyFrom(s[1..], seps, cur + [s[0]])
  }

  function SplitAny(s: string, seps: set<char>): seq<string> {
    SplitAnyFrom(s, seps, "")
  }

  predicate NoneIn(s: string, seps: set<char>) {
    forall i | 0 <= i < |s| :: s[i] !in seps
  }

  lemma {:induction false} SplitAnyShift(p: string, rest: string, seps: set<char>, cur: string)
    requires NoneIn(p, seps)
    ensures SplitAnyFrom(p + rest, seps, cur) == SplitAnyFrom(rest, seps, cur + p)
    decreases |p|
  {
    if p == [] {
      assert p + rest == rest && cur + p == cur;
    } else {
      assert (p + rest)[0] == p[0];
      assert (p + rest)[1..] == p[1..] + rest;
      SplitAnyShift(p[1..], rest, seps, cur + [p[0]]);
      assert cur + [p[0]] + p[1..] == cur + p;
    }
  }

  /** re.split over a class containing c recovers the parts of a c-join when no part holds a separator. */
  lemma {:induction false} SplitAnyJoin(parts: seq<string>, c: char, seps: set<char>)
    requires c in seps && |parts| >= 1
    requires forall i | 0 <= i < |parts| :: NoneIn(parts[i], seps)
    ensures SplitAny(Join(parts, [c]), seps) == parts
    decreases |parts|
  {
    if |parts| == 1 {
      SplitAnyShift(parts[0], "", seps, "");
      assert parts[0] + "" == parts[0] && "" + parts[0] == parts[0];
    } else {
      var rest := Join(parts[1..], [c]);
      assert Join(parts, [c]) == parts[0] + ([c] + rest);
      SplitAnyShift(parts[0], [c] + rest, seps, "");
      assert "" + parts[0] == parts[0];
      assert ([c] + rest)[1..] == rest;
      SplitAnyJoin(parts[1..], c, seps);
    }
  }

  /** No part re.split gives holds one of the separators. */
  lemma {:induction false} SplitAnyFromFree(s: string, seps: set<char>, cur: string)
    requires NoneIn(cur, seps)
    ensures forall i | 0 <= i < |SplitAnyFrom(s, seps, cur)| :: NoneIn(SplitAnyFrom(s, seps, cur)[i], seps)
    decreases |s|
  {
    if s != [] {
      if s[0] in seps {
        SplitAnyFromFree(s[1..], seps, "");
      } else {
        SplitAnyFromFree(s[1..], seps, cur + [s[0]]);
      }
    }
  }

  /** strip() keeps a string free of the separators: it only removes characters. */
  lemma StripFree(s: string, seps: set<char>)
    requires NoneIn(s, seps)
    ensures NoneIn(Strip(s), seps)
  {
    var l := StripLeft(s);
    StripLeftShape(s);
    StripRightShape(l);
    assert forall i | 0 <= i < |l| :: l[i] == s[|s| - |l| + i];
    var r := StripRight(l);
    assert forall i | 0 <= i < |r| :: r[i] == l[i];
  }

  /** Each piece stripped. */
  function Strips(raw: seq<string>): (r: seq<string>)
    ensures |r| == |raw|
    ensures forall i | 0 <= i < |raw| :: r[i] == Strip(raw[i])
  {
    seq(|raw|, i requires 0 <= i < |raw| => Strip(raw[i]))
  }

  lemma StripsTwo(a: string, b: string)
    ensures Strips([a, b]) == [Strip(a), Strip(b)]
  {
  }

  /** s[::-1] */
  function Reverse<T>(s: seq<T>): (r: seq<T>)
    ensures |r| == |s| && forall i | 0 <= i < |s| :: r[i] == s[|s| - 1 - i]
  {
    seq(|s|, i requires 0 <= i < |s| => s[|s| - 1 - i])
  }

  // ---------------------------------------------------------------- replace

  /** Non-overlapping occurrences of `pat`, counted left to right as str.replace finds them. */
  function Occurrences(s: string, pat: string): nat
    requires |pat| > 0
    decreases |s|
  {
    if |s| < |pat| then 0
    else if s[..|pat|] == pat then 1 + Occurrences(s[|pat|..], pat)
    else Occurrences(s[1..], pat)
  }

  /** s.replace(pat, repl) for a non-empty `pat`. */
  function Replace(s: string, pat: string, repl: string): string
    requires |pat| > 0
    decreases |s|
  {
    if |s| < |pat| then s
    else if s[..|pat|] == pat then repl + Replace(s[|pat|..], pat, repl)
    else [s[0]] + Replace(s[1..], pat, repl)
  }

  /** Each replaced occurrence changes the length by |repl| - |pat|. */
  lemma {:induction false} ReplaceLength(s: string, pat: string, repl: string)
    requires |pat| > 0
    ensures |Replace(s, pat, repl)| == |s| + Occurrences(s, pat) * (|repl| - |pat|)
    decreases |s|
  {
    if |s| >= |pat| {
      var d := |repl| - |pat|;
      if s[..|pat|] == pat {
        var k := Occurrences(s[|pat|..], pat);
        ReplaceLength(s[|pat|..], pat, repl);
        assert |Replace(s, pat, repl)| == |repl| + (|s| - |pat|) + k * d;
        Distribute(k, d);
      } else {
        ReplaceLength(s[1..], pat, repl);
      }
    }
  }

  lemma Distribute(k: int, d: int)
    ensures (1 + k) * d == d + k * d
  {
  }

  /** replace() leaves a string that does not contain `pat` unchanged. */
  lemma {:induction false} ReplaceAbsent(s: string, pat: string, repl: string)
    requires |pat| > 0 && !Contains(s, pat)
    ensures Replace(s, pat, repl) == s
    decreases |s|
  {
    if |s| >= |pat| {
      assert s[..|pat|] != pat;
      ReplaceAbsent(s[1..], pat, repl);
      assert s == [s[0]] + s[1..];
    }
  }

  // ---------------------------------------------------------------- case

  function LowerChar(c: char): char {
    if 'A' <= c <= 'Z' then (c as int + 32) as char else c
  }

  function UpperChar(c: char): char {
    if 'a' <= c <= 'z' then (c as int - 32) as char else c
  }

  /** str.lower() on ASCII letters. */
  function Lower(s: string): (r: string)
    ensures |r| == |s|
  {
    seq(|s|, i requires 0 <= i < |s| => LowerChar(s[i]))
  }

  /** str.upper() on ASCII letters. */
  function Upper(s: string): (r: string)
    ensures |r| == |s|
  {
    seq(|s|, i requires 0 <= i < |s| => UpperChar(s[i]))
  }

  /** lower() ignores what upper() changed: case-insensitive comparisons may start from either. */
  lemma LowerUpper(s: string)
    ensures Lower(Upper(s)) == Lower(s)
  {
    forall i | 0 <= i < |s| ensures Lower(Upper(s))[i] == Lower(s)[i] {
      var c := s[i];
      if 'a' <= c <= 'z' {
        assert UpperChar(c) as int == c as int - 32;
      }
    }
  }

  // ---------------------------------------------------------------- numbers

  predicate IsDigit(c: char) {
    '0' <= c <= '9'
  }

  predicate AllDigits(s: string) {
    forall i | 0 <= i < |s| :: IsDigit(s[i])
  }

  /** A character that is not a digit does not occur in a digit string. */
  lemma DigitsExclude(s: string, c: char)
    requires AllDigits(s) && !IsDigit(c)
    ensures c !in s
  {
    assert forall i | 0 <= i < |s| :: s[i] != c;
  }

  function Digit(n: nat): (c: char)
    requires n < 10
    ensures IsDigit(c) && (c as int) - ('0' as int) == n
  {
    ('0' as int + n) as char
  }

  /** The value of a string of decimal digits, most significant first. */
  function DigitsValue(s: string): nat
    requires AllDigits(s)
    decreases |s|
  {
    if s == [] then 0 else DigitsValue(s[..|s| - 1]) * 10 + ((s[|s| - 1] as int) - ('0' as int))
  }

  /** str(n) for n >= 0 */
  function NatToString(n: nat): (r: string)
    ensures |r| >= 1 && AllDigits(r)
  {
    if n < 10 then [Digit(n)] else NatToString(n / 10) + [Digit(n % 10)]
  }

  /** str(i) */
  function IntToString(i: int): string {
    if i < 0 then "-" + NatToString(-i) else NatToString(i)
  }

  lemma {:induction false} NatToStringValue(n: nat)
    ensures DigitsValue(NatToString(n)) == n
  {
    if n >= 10 {
      var s := NatToString(n);
      assert s[..|s| - 1] == NatToString(n / 10);
      NatToStringValue(n / 10);
    }
  }

  function Pow10(k: nat): (p: nat)
    ensures p >= 1
  {
    if k == 0 then 1 else 10 * Pow10(k - 1)
  }

  /** The last `width` decimal digits of n, zero-padded, as "%0<width>d" writes any n below 10^width. */
  function PadDigits(n: nat, width: nat): (r: string)
    ensures |r| == width && AllDigits(r)
    decreases width
  {
    if width == 0 then [] else PadDigits(n / 10, width - 1) + [Digit(n % 10)]
  }

  lemma {:induction false} PadDigitsValue(n: nat, width: nat)
    requires n < Pow10(width)
    ensures DigitsValue(PadDigits(n, width)) == n
    decreases width
  {
    if width > 0 {
      var s := PadDigits(n, width);
      assert n / 10 < Pow10(width - 1);
      PadDigitsValue(n / 10, width - 1);
      assert s[..|s| - 1] == PadDigits(n / 10, width - 1);
    }
  }

  /** str(n) of an n with exactly `width` digits is its zero-padded form. */
  lemma {:induction false} NatToStringPadded(n: nat, width: nat)
    requires width >= 1 && Pow10(width - 1) <= n < Pow10(width)
    ensures NatToString(n) == PadDigits(n, width)
    decreases width
  {
    if width == 1 {
      assert PadDigits(n / 10, 0) == [];
    } else {
      assert Pow10(width - 2) <= n / 10 < Pow10(width - 1);
      NatToStringPadded(n / 10, width - 1);
    }
  }

  /** Two decimal digits, zero-padded, as "%02d" writes them. */
  function Pad2(n: nat): (r: string)
    requires n < 100
    ensures |r| == 2 && AllDigits(r)
  {
    PadDigits(n, 2)
  }

  /** Four decimal digits, zero-padded, as "%04d" writes them. */
  function Pad4(n: nat): (r: string)
    requires n < 10000
    ensures |r| == 4 && AllDigits(r)
  {
    PadDigits(n, 4)
  }

  lemma Pad2Chars(n: nat)
    requires n < 100
    ensures Pad2(n) == [Digit(n / 10), Digit(n % 10)]
  {
    assert PadDigits(n / 10 / 10, 0) == [];
    assert n / 10 % 10 == n / 10;
  }

  lemma Pad2Value(n: nat)
    requires n < 100
    ensures DigitsValue(Pad2(n)) == n
  {
    assert Pow10(2) == 100;
    PadDigitsValue(n, 2);
  }

  lemma Pad4Value(n: nat)
    requires n < 10000
    ensures DigitsValue(Pad4(n)) == n
  {
    assert Pow10(4) == 10000;
    PadDigitsValue(n, 4);
  }

  /** int(s): surrounding whitespace, an optional sign, then ASCII decimal digits. */
  function ParseInt(s: string): Option<int> {
    ParseTrimmedInt(Strip(s))
  }

  function ParseTrimmedInt(t: string): Option<int> {
    if |t| >= 2 && (t[0] == '-' || t[0] == '+') && AllDigits(t[1..]) then
      var v: int := DigitsValue(t[1..]);
      Some(if t[0] == '-' then -v else v)
    else if |t| >= 1 && AllDigits(t) then Some(DigitsValue(t))
    else None
  }

  /** int() reads back a digit string written by str() or by zero padding. */
  lemma ParseIntDigits(s: string)
    requires |s| >= 1 && AllDigits(s)
    ensures ParseInt(s) == Some(DigitsValue(s))
  {
    assert !IsSpace(s[0]) && !IsSpace(s[|s| - 1]);
    StripTrimmed(s);
    assert s[0] != '-' && s[0] != '+';
  }

  lemma ParseIntPad2(n: nat)
    requires n < 100
    ensures ParseInt(Pad2(n)) == Some(n)
  {
    Pad2Value(n);
    ParseIntDigits(Pad2(n));
  }

  lemma ParseIntPad4(n: nat)
    requires n < 10000
    ensures ParseInt(Pad4(n)) == Some(n)
  {
    Pad4Value(n);
    ParseIntDigits(Pad4(n));
  }
}
