/**
 * The Python 2 string primitives the keyword generator is built on, as
 * functions on `string`: `s.split()` (runs of whitespace), `s.split(c)` for
 * a one-character separator, `sep.join(parts)`, `s.replace(old, new)` for
 * the patterns the code uses, and `int(s)` on decimal text.
 */
module Text {
  import opened Wrappers

  /** The characters `str.split()` and `int()` treat as whitespace:
      space, tab, line feed, carriage return, vertical tab and form feed. */
  predicate IsSpace(c: char) {
    c == ' ' || c == '\t' || c == '\n' || c == '\r' || c as int == 0x0B || c as int == 0x0C
  }

  predicate NoSpace(w: string) {
    forall i :: 0 <= i < |w| ==> !IsSpace(w[i])
  }

  /** A word as `str.split()` returns it: non-empty, free of whitespace. */
  predicate IsWord(w: string) {
    |w| > 0 && NoSpace(w)
  }

  /** Every character below 128: text that decodes as ASCII. */
  predicate IsAscii(s: string) {
    forall i :: 0 <= i < |s| ==> s[i] as int < 128
  }

  predicate AllWords(ws: seq<string>) {
    forall i :: 0 <= i < |ws| ==> IsWord(ws[i])
  }

  /** `s.split()`: the maximal runs of non-whitespace characters of `s`, in order. */
  function Words(s: string): (ws: seq<string>)
    ensures AllWords(ws)
  {
    WordsFrom(s, [])
  }

  /** Scans `s` with `cur` holding the characters of the word under construction. */
  function WordsFrom(s: string, cur: string): (ws: seq<string>)
    requires NoSpace(cur)
    ensures AllWords(ws)
    decreases |s|
  {
    if s == [] then
      (if cur == [] then [] else [cur])
    else if IsSpace(s[0]) then
      (if cur == [] then [] else [cur]) + WordsFrom(s[1..], [])
    else
      WordsFrom(s[1..], cur + [s[0]])
  }

  /** `sep.join(parts)`: the parts in order with one `sep` between each two. */
  function Join(sep: string, parts: seq<string>): (r: string)
    ensures |parts| > 0 ==> |r| == TotalLength(parts) + (|parts| - 1) * |sep|
    ensures |parts| > 0 ==> r[..|parts[0]|] == parts[0]
  {
    if |parts| == 0 then []
    else if |parts| == 1 then parts[0]
    else
      var rest := Join(sep, parts[1..]);
      assert (|parts| - 1) * |sep| == |sep| + (|parts| - 2) * |sep|;
      assert (parts[0] + sep + rest)[..|parts[0]|] == parts[0];
      parts[0] + sep + rest
  }

  /** The lengths of all parts, added up. */
  function TotalLength(parts: seq<string>): nat {
    if parts == [] then 0 else |parts[0]| + TotalLength(parts[1..])
  }

  /** `s.split(c)` for a one-character separator `c`: the pieces between the
      occurrences of `c`, empty pieces included. */
  function SplitOn(s: string, c: char): (parts: seq<string>)
    ensures |parts| >= 1
    ensures forall i :: 0 <= i < |parts| ==> c !in parts[i]
  {
    if s == [] then [[]]
    else
      var rest := SplitOn(s[1..], c);
      if s[0] == c then [[]] + rest
      else [[s[0]] + rest[0]] + rest[1..]
  }

  /** The number of occurrences of `c` in `s`. */
  function Occurrences(s: string, c: char): nat {
    if s == [] then 0 else (if s[0] == c then 1 else 0) + Occurrences(s[1..], c)
  }

  /** `s.replace(a, b)` for one-character `a` and `b`. */
  function ReplaceChar(s: string, a: char, b: char): (r: string)
    ensures |r| == |s|
    ensures forall i :: 0 <= i < |s| ==> r[i] == (if s[i] == a then b else s[i])
  {
    if s == [] then [] else [if s[0] == a then b else s[0]] + ReplaceChar(s[1..], a, b)
  }

  /** `s.replace(c, "")`: `s` with every `c` removed. */
  function RemoveChar(s: string, c: char): (r: string)
    ensures c !in r
    ensures |r| == |s| - Occurrences(s, c)
    ensures c !in s ==> r == s
  {
    if s == [] then [] else (if s[0] == c then [] else [s[0]]) + RemoveChar(s[1..], c)
  }

  /** The number of line breaks in `s`, counting "\r\n" once, and a lone
      "\r" or "\n" once each. */
  function LineBreaks(s: string): nat {
    if s == [] then 0
    else
      (if s[0] == '\n' || (s[0] == '\r' && (|s| == 1 || s[1] != '\n')) then 1 else 0)
        + LineBreaks(s[1..])
  }

  /** `s.replace("\r\n", "\n")`: a left-to-right scan that rewrites each
      non-overlapping carriage return + line feed pair to a line feed. Every
      line break of `s` is then a single `\n` or `\r`, and no other character
      is touched. */
  function ReplaceCrLf(s: string): (r: string)
    ensures Occurrences(r, '\n') + Occurrences(r, '\r') == LineBreaks(s)
    ensures forall c :: c != '\r' ==> Occurrences(r, c) == Occurrences(s, c)
    ensures '\r' !in s ==> r == s
    decreases |s|
  {
    if |s| >= 2 && s[0] == '\r' && s[1] == '\n' then
      var rest := ReplaceCrLf(s[2..]);
      assert ("\n" + rest)[1..] == rest;
      assert s[1..][1..] == s[2..];
      "\n" + rest
    else if s == [] then []
    else
      var rest := ReplaceCrLf(s[1..]);
      assert ([s[0]] + rest)[1..] == rest;
      [s[0]] + rest
  }

  // ---------------------------------------------------------------------
  // int(s) on decimal text

  predicate IsDigit(c: char) {
    '0' <= c <= '9'
  }

  function DigitValue(c: char): nat
    requires IsDigit(c)
  {
    c as int - '0' as int
  }

  /** The value of a run of decimal digits, most significant first. */
  function DigitsValue(ds: string): nat
    requires forall i :: 0 <= i < |ds| ==> IsDigit(ds[i])
  {
    if ds == [] then 0 else 10 * DigitsValue(ds[..|ds| - 1]) + DigitValue(ds[|ds| - 1])
  }

  function TrimLeft(s: string): string {
    if s != [] && IsSpace(s[0]) then TrimLeft(s[1..]) else s
  }

  function TrimRight(s: string): string {
    if s != [] && IsSpace(s[|s| - 1]) then TrimRight(s[..|s| - 1]) else s
  }

  /** `s.strip()`. */
  function Trim(s: string): string {
    TrimRight(TrimLeft(s))
  }

  /** At least one character, every one a decimal digit. */
  predicate AllDigits(ds: string) {
    ds != [] && forall i :: 0 <= i < |ds| ==> IsDigit(ds[i])
  }

  /** Text `int()` accepts once surrounding whitespace is gone: digits, or a
      sign, optional whitespace, then digits. */
  predicate IntegerText(t: string) {
    AllDigits(t) || (t != [] && (t[0] == '-' || t[0] == '+') && AllDigits(TrimLeft(t[1..])))
  }

  /** `int(s)` in base 10 as Python 2 parses text: leading and trailing
      whitespace is skipped, then an optional sign, whitespace again, and at
      least one decimal digit; anything else is a `ValueError`, modelled as
      `None`. */
  function ParseInt(s: string): (r: Option<int>)
    ensures s == [] ==> r == None
  {
    var t := Trim(s);
    var sign := if t != [] && (t[0] == '-' || t[0] == '+') then t[0] else ' ';
    var ds := if sign == ' ' then t else TrimLeft(t[1..]);
    if !AllDigits(ds) then None
    else if sign == '-' then Some(-(DigitsValue(ds) as int))
    else Some(DigitsValue(ds))
  }

  /** `str(n)` for a natural number: its decimal digits, no leading zero. */
  function Decimal(n: nat): (s: string)
    ensures |s| > 0 && forall i :: 0 <= i < |s| ==> IsDigit(s[i])
  {
    if n < 10 then ['0' + n as char] else Decimal(n / 10) + ['0' + (n % 10) as char]
  }

  // ---------------------------------------------------------------------
  // Lemmas

  lemma {:induction false} WordsFromAppend(w: string, r: string, cur: string)
    requires NoSpace(w) && NoSpace(cur)
    ensures WordsFrom(w + r, cur) == WordsFrom(r, cur + w)
    decreases |w|
  {
    if w == [] {
      assert w + r == r;
      assert cur + w == cur;
    } else {
      assert (w + r)[0] == w[0];
      assert (w + r)[1..] == w[1..] + r;
      WordsFromAppend(w[1..], r, cur + [w[0]]);
      assert cur + [w[0]] + w[1..] == cur + w;
    }
  }

  /** Joining words with single spaces and splitting on whitespace again gives
      back the same words: `" ".join(ws).split() == ws`. */
  lemma {:induction false} WordsOfJoin(ws: seq<string>)
    requires AllWords(ws)
    ensures Words(Join(" ", ws)) == ws
  {
    if |ws| == 1 {
      WordsFromAppend(ws[0], [], []);
      assert ws[0] + [] == ws[0];
      assert [] + ws[0] == ws[0];
    } else if |ws| > 1 {
      var rest := Join(" ", ws[1..]);
      assert Join(" ", ws) == ws[0] + (" " + rest);
      WordsFromAppend(ws[0], " " + rest, []);
      assert [] + ws[0] == ws[0];
      assert (" " + rest)[0] == ' ';
      assert (" " + rest)[1..] == rest;
      WordsOfJoin(ws[1..]);
    }
  }

  lemma {:induction false} SplitOnNoSeparator(s: string, c: char)
    requires c !in s
    ensures SplitOn(s, c) == [s]
  {
    if s != [] {
      SplitOnNoSeparator(s[1..], c);
      assert [s[0]] + s[1..] == s;
    }
  }

  /** Splitting at an occurrence of the separator splits the two sides apart:
      `(a + c + b).split(c) == a.split(c) + b.split(c)`. */
  lemma {:induction false} SplitOnAppend(a: string, c: char, b: string)
    ensures SplitOn(a + [c] + b, c) == SplitOn(a, c) + SplitOn(b, c)
  {
    if a == [] {
      assert a + [c] + b == [c] + b;
      assert ([c] + b)[1..] == b;
    } else {
      assert (a + [c] + b)[0] == a[0];
      assert (a + [c] + b)[1..] == a[1..] + [c] + b;
      SplitOnAppend(a[1..], c, b);
    }
  }

  /** `c.join(parts).split(c) == parts` when no part contains `c`. */
  lemma {:induction false} SplitOnJoin(parts: seq<string>, c: char)
    requires |parts| >= 1
    requires forall i :: 0 <= i < |parts| ==> c !in parts[i]
    ensures SplitOn(Join([c], parts), c) == parts
  {
    if |parts| == 1 {
      SplitOnNoSeparator(parts[0], c);
    } else {
      SplitOnAppend(parts[0], c, Join([c], parts[1..]));
      SplitOnNoSeparator(parts[0], c);
      SplitOnJoin(parts[1..], c);
    }
  }

  lemma {:induction false} JoinPrepend(sep: string, a: string, b: string, rest: seq<string>)
    ensures Join(sep, [a + b] + rest) == a + Join(sep, [b] + rest)
  {
    if |rest| > 0 {
      assert ([a + b] + rest)[1..] == rest;
      assert ([b] + rest)[1..] == rest;
    }
  }

  /** `c.join(s.split(c)) == s`. */
  lemma {:induction false} JoinSplitOn(s: string, c: char)
    ensures Join([c], SplitOn(s, c)) == s
  {
    if s != [] {
      var rest := SplitOn(s[1..], c);
      JoinSplitOn(s[1..], c);
      if s[0] == c {
        assert ([[]] + rest)[1..] == rest;
      } else {
        assert [rest[0]] + rest[1..] == rest;
        JoinPrepend([c], [s[0]], rest[0], rest[1..]);
      }
    }
  }

  /** The number of pieces is one more than the number of separators. */
  lemma {:induction false} SplitOnCount(s: string, c: char)
    ensures |SplitOn(s, c)| == Occurrences(s, c) + 1
  {
    if s != [] {
      SplitOnCount(s[1..], c);
    }
  }

  /** A character in neither the separator nor any part is not in the join. */
  lemma {:induction false} JoinExcludes(sep: string, parts: seq<string>, c: char)
    requires c !in sep
    requires forall i :: 0 <= i < |parts| ==> c !in parts[i]
    ensures c !in Join(sep, parts)
  {
    if |parts| > 1 {
      JoinExcludes(sep, parts[1..], c);
    }
  }

  lemma {:induction false} DigitsValueOfDecimal(n: nat)
    ensures DigitsValue(Decimal(n)) == n
  {
    var d := Decimal(n);
    if n >= 10 {
      assert d[..|d| - 1] == Decimal(n / 10);
      DigitsValueOfDecimal(n / 10);
    }
  }

  lemma TrimOfDigits(s: string)
    requires forall i :: 0 <= i < |s| ==> IsDigit(s[i]) || s[i] == '-' || s[i] == '+'
    ensures TrimLeft(s) == s && Trim(s) == s
  {
  }

  /** `int(str(n)) == n` and `int("-" + str(n)) == -n`. */
  lemma ParseIntOfDecimal(n: nat)
    ensures ParseInt(Decimal(n)) == Some(n)
    ensures ParseInt("-" + Decimal(n)) == Some(-(n as int))
  {
    var d := Decimal(n);
    DigitsValueOfDecimal(n);
    ParseIntUnsigned(d);
    ParseIntSigned('-', d);
  }

  /** `int(s)` succeeds exactly on text that, stripped, is digits or a sign,
      optional whitespace and digits. */
  lemma ParseIntAccepts(s: string)
    ensures ParseInt(s).Some? <==> IntegerText(Trim(s))
  {
  }

  /** Digits parse to their value, with or without a sign in front:
      `int(ds)`, `int("+" + ds)` and `int("-" + ds)`. */
  lemma ParseIntOfDigits(ds: string)
    requires AllDigits(ds)
    ensures ParseInt(ds) == Some(DigitsValue(ds))
    ensures ParseInt("+" + ds) == Some(DigitsValue(ds) as int)
    ensures ParseInt("-" + ds) == Some(-(DigitsValue(ds) as int))
  {
    ParseIntUnsigned(ds);
    ParseIntSigned('+', ds);
    ParseIntSigned('-', ds);
  }

  lemma ParseIntUnsigned(ds: string)
    requires AllDigits(ds)
    ensures ParseInt(ds) == Some(DigitsValue(ds))
  {
    TrimOfDigits(ds);
  }

  lemma ParseIntSigned(c: char, ds: string)
    requires (c == '+' || c == '-') && AllDigits(ds)
    ensures ParseInt([c] + ds) == Some(if c == '-' then -(DigitsValue(ds) as int) else DigitsValue(ds))
  {
    var t := [c] + ds;
    TrimOfDigits(t);
    TrimOfDigits(ds);
    assert t[0] == c && t[1..] == ds;
  }

  /** A sign, any whitespace, then digits: `int("-\t7") == -7`, as Python 2
      skips whitespace between the sign and the digits. */
  lemma ParseIntSignSpace(c: char, w: string, ds: string)
    requires (c == '+' || c == '-') && AllDigits(ds)
    requires forall i :: 0 <= i < |w| ==> IsSpace(w[i])
    ensures ParseInt([c] + w + ds) == Some(if c == '-' then -(DigitsValue(ds) as int) else DigitsValue(ds))
  {
    SignSpaceTrim(c, w, ds);
  }

  lemma SignSpaceTrim(c: char, w: string, ds: string)
    requires (c == '+' || c == '-') && AllDigits(ds)
    requires forall i :: 0 <= i < |w| ==> IsSpace(w[i])
    ensures var t := [c] + w + ds; Trim(t) == t && t[0] == c && TrimLeft(t[1..]) == ds
  {
    var t := [c] + w + ds;
    assert t[0] == c && t[|t| - 1] == ds[|ds| - 1];
    assert TrimLeft(t) == t && TrimRight(t) == t;
    assert t[1..] == w + ds;
    TrimLeftSpaces(w, ds);
    TrimOfDigits(ds);
  }

  /** Leading zeros do not change the value: `int("0" + ds) == int(ds)`. */
  lemma {:induction false} LeadingZero(ds: string)
    requires AllDigits(ds)
    ensures DigitsValue("0" + ds) == DigitsValue(ds)
    ensures ParseInt("0" + ds) == ParseInt(ds)
    decreases |ds|
  {
    var zs := "0" + ds;
    if |ds| > 1 {
      var init := ds[..|ds| - 1];
      LeadingZero(init);
      assert zs[..|zs| - 1] == "0" + init;
    } else {
      assert zs[..|zs| - 1] == "0";
      assert DigitsValue("0") == 10 * DigitsValue([]) + 0;
    }
    ParseIntOfDigits(ds);
    ParseIntOfDigits(zs);
  }

  /** Whitespace around the text is ignored: `int(w1 + t + w2) == int(t)`. */
  lemma ParseIntIgnoresSpace(w1: string, t: string, w2: string)
    requires forall i :: 0 <= i < |w1| ==> IsSpace(w1[i])
    requires forall i :: 0 <= i < |w2| ==> IsSpace(w2[i])
    ensures ParseInt(w1 + t + w2) == ParseInt(t)
  {
    TrimLeftSpaces(w1, t + w2);
    assert w1 + t + w2 == w1 + (t + w2);
    TrimLeftAppend(t, w2);
    TrimRightSpaces(TrimLeft(t), w2);
  }

  lemma {:induction false} TrimLeftSpaces(w: string, s: string)
    requires forall i :: 0 <= i < |w| ==> IsSpace(w[i])
    ensures TrimLeft(w + s) == TrimLeft(s)
  {
    if w != [] {
      assert (w + s)[1..] == w[1..] + s;
      TrimLeftSpaces(w[1..], s);
    } else {
      assert w + s == s;
    }
  }

  lemma {:induction false} TrimLeftAppend(t: string, w: string)
    requires forall i :: 0 <= i < |w| ==> IsSpace(w[i])
    ensures TrimLeft(t) == [] ==> TrimLeft(t + w) == []
    ensures TrimLeft(t) != [] ==> TrimLeft(t + w) == TrimLeft(t) + w
  {
    if t == [] {
      assert t + w == w;
      TrimLeftSpaces(w, []);
      assert w + [] == w;
    } else if IsSpace(t[0]) {
      assert (t + w)[1..] == t[1..] + w;
      TrimLeftAppend(t[1..], w);
    }
  }

  lemma {:induction false} TrimRightSpaces(s: string, w: string)
    requires forall i :: 0 <= i < |w| ==> IsSpace(w[i])
    ensures TrimRight(s + w) == TrimRight(s)
    decreases |w|
  {
    if w == [] {
      assert s + w == s;
    } else {
      assert (s + w)[..|s + w| - 1] == s + w[..|w| - 1];
      TrimRightSpaces(s, w[..|w| - 1]);
    }
  }

  /** The first part, the separator, then the join of the other parts. */
  lemma JoinCons(sep: string, parts: seq<string>)
    requires |parts| > 1
    ensures Join(sep, parts) == parts[0] + (sep + Join(sep, parts[1..]))
  {
  }

  /** `s.replace("\r\n", "\n")` works piece by piece, unless the cut falls
      inside a "\r\n" pair: every other character keeps its place. */
  lemma {:induction false} ReplaceCrLfAppend(a: string, b: string)
    requires a == [] || b == [] || a[|a| - 1] != '\r' || b[0] != '\n'
    ensures ReplaceCrLf(a + b) == ReplaceCrLf(a) + ReplaceCrLf(b)
    decreases |a|
  {
    if a == [] {
      assert a + b == b;
    } else if |a| >= 2 && a[0] == '\r' && a[1] == '\n' {
      assert (a + b)[0] == a[0] && (a + b)[1] == a[1];
      assert (a + b)[2..] == a[2..] + b;
      ReplaceCrLfAppend(a[2..], b);
    } else {
      assert (a + b)[0] == a[0];
      assert |a| >= 2 ==> (a + b)[1] == a[1];
      assert |a| == 1 && b != [] ==> (a + b)[1] == b[0];
      assert (a + b)[1..] == a[1..] + b;
      ReplaceCrLfAppend(a[1..], b);
    }
  }

  /** `s.replace(a, b)` for one character works piece by piece. */
  lemma ReplaceCharAppend(s: string, t: string, a: char, b: char)
    ensures ReplaceChar(s + t, a, b) == ReplaceChar(s, a, b) + ReplaceChar(t, a, b)
  {
    var l, r := ReplaceChar(s + t, a, b), ReplaceChar(s, a, b) + ReplaceChar(t, a, b);
    assert forall i :: 0 <= i < |l| ==> l[i] == r[i] by {
      forall i | 0 <= i < |l| ensures l[i] == r[i] {
        if i < |s| {
          assert (s + t)[i] == s[i];
        } else {
          assert (s + t)[i] == t[i - |s|];
        }
      }
    }
  }

  /** `s.replace(c, "")` works piece by piece: removing from a concatenation
      removes from each part and keeps the parts in order. */
  lemma {:induction false} RemoveCharAppend(a: string, b: string, c: char)
    ensures RemoveChar(a + b, c) == RemoveChar(a, c) + RemoveChar(b, c)
  {
    if a == [] {
      assert a + b == b;
    } else {
      assert (a + b)[1..] == a[1..] + b;
      RemoveCharAppend(a[1..], b, c);
    }
  }

  /** `s.split()` cuts at every whitespace character: the words of
      `a + [c] + b` are those of `a` followed by those of `b`. */
  lemma WordsSplitAtSpace(a: string, c: char, b: string)
    requires IsSpace(c)
    ensures Words(a + [c] + b) == Words(a) + Words(b)
  {
    WordsFromSpace(a, c, b, []);
  }

  lemma {:induction false} WordsFromSpace(a: string, c: char, b: string, cur: string)
    requires IsSpace(c) && NoSpace(cur)
    ensures WordsFrom(a + [c] + b, cur) == WordsFrom(a, cur) + WordsFrom(b, [])
    decreases |a|
  {
    var s := a + [c] + b;
    if a == [] {
      assert s[1..] == b;
    } else {
      assert s[0] == a[0];
      assert s[1..] == a[1..] + [c] + b;
      if IsSpace(a[0]) {
        WordsFromSpace(a[1..], c, b, []);
      } else {
        WordsFromSpace(a[1..], c, b, cur + [a[0]]);
      }
    }
  }

  /** A text free of whitespace is one word: `w.split() == [w]` for non-empty `w`. */
  lemma WordsOfWord(w: string)
    requires IsWord(w)
    ensures Words(w) == [w]
  {
    WordsFromAppend(w, [], []);
    assert w + [] == w;
    assert [] + w == w;
  }

  /** A character absent from `s` is absent from every piece of `s.split(c)`. */
  lemma {:induction false} SplitOnExcludes(s: string, c: char, x: char)
    requires x !in s
    ensures forall i :: 0 <= i < |SplitOn(s, c)| ==> x !in SplitOn(s, c)[i]
  {
    if s != [] {
      SplitOnExcludes(s[1..], c, x);
    }
  }

  /** Appending a part appends the separator and the part. */
  lemma {:induction false} JoinSnoc(sep: string, parts: seq<string>, x: string)
    ensures Join(sep, parts + [x]) == if parts == [] then x else Join(sep, parts) + sep + x
  {
    if |parts| == 1 {
      assert parts + [x] == [parts[0], x];
    } else if |parts| > 1 {
      assert (parts + [x])[1..] == parts[1..] + [x];
      JoinSnoc(sep, parts[1..], x);
    }
  }
}
