/**
 * Corpus preparation (corpus.py): loading documents and stop words from
 * directory listings, cutting documents into fixed-size pieces, filtering
 * token streams against the stop list, and the dictionary-pruning
 * thresholds chosen from the document count.
 *
 * A directory is given as the sequence of its files (name and contents) in
 * listing order. Gensim's tokenizer and `doc2bow` are function parameters.
 */
module Corpus {
  import opened Text

  /** A file of the documents or stop-word directory. */
  datatype File = File(name: string, contents: string)

  /** A sparse document vector: (term id, count) pairs. */
  type Bag = seq<(int, int)>

  /** The dictionary-pruning arguments given to `filter_extremes`. */
  datatype Thresholds = Thresholds(noBelow: int, noAbove: real, keepN: int)

  /** Both loaders skip names that start with a dot. */
  predicate IsHidden(name: string) {
    |name| > 0 && name[0] == '.'
  }

  // ---------------------------------------------------------------------
  // splitter

  /** `" ".join(ws[i:i+n]) for i in xrange(0, len(ws), n)`. */
  function Pieces(ws: seq<string>, n: nat): seq<string>
    requires n > 0
    decreases |ws|
  {
    if |ws| == 0 then []
    else if |ws| <= n then [Join(" ", ws)]
    else [Join(" ", ws[..n])] + Pieces(ws[n..], n)
  }

  /** `splitter(n, s)`: the words of `s` in consecutive groups of `n`, each
      group joined with single spaces. */
  function Splitter(n: nat, s: string): (pieces: seq<string>)
    requires n > 0
    ensures WordsOfEach(pieces) == Words(s)
  {
    PiecesRoundTrip(Words(s), n);
    Pieces(Words(s), n)
  }

  /** The words of each piece, concatenated in order. */
  function WordsOfEach(pieces: seq<string>): seq<string> {
    if pieces == [] then [] else Words(pieces[0]) + WordsOfEach(pieces[1..])
  }

  /** The number of pieces a text of `w` words is cut into: one per started
      group of `n` words. */
  function PieceCount(w: nat, n: nat): nat
    requires n > 0
  {
    if w == 0 then 0 else if w <= n then 1 else 1 + PieceCount(w - n, n)
  }

  // ---------------------------------------------------------------------
  // get_documents

  /** The documents one visible file contributes. */
  function FileDocuments(f: File, docLength: int): seq<string> {
    if docLength > 0 then Splitter(docLength, f.contents) else [f.contents]
  }

  /** The documents a listed file contributes: none for a hidden file. */
  function ListedDocuments(f: File, docLength: int): seq<string> {
    if IsHidden(f.name) then [] else FileDocuments(f, docLength)
  }

  /** The document list built from `files`, file by file and piece by piece. */
  function Documents(files: seq<File>, docLength: int): seq<string> {
    if files == [] then []
    else Documents(files[..|files| - 1], docLength) + ListedDocuments(files[|files| - 1], docLength)
  }

  /** The number of files whose name does not start with a dot. */
  function VisibleCount(files: seq<File>): nat {
    if files == [] then 0
    else VisibleCount(files[..|files| - 1]) + (if IsHidden(files[|files| - 1].name) then 0 else 1)
  }

  /** The sum over the visible files of ceil(words / docLength). */
  function PieceTotal(files: seq<File>, docLength: nat): nat
    requires docLength > 0
  {
    if files == [] then 0
    else
      var f := files[|files| - 1];
      PieceTotal(files[..|files| - 1], docLength)
        + (if IsHidden(f.name) then 0 else PieceCount(|Words(f.contents)|, docLength))
  }

  /** `get_documents(path, doc_length)` on the directory listing `files`. */
  method GetDocuments(files: seq<File>, docLength: int) returns (docs: seq<string>)
    ensures docs == Documents(files, docLength)
  {
    docs := [];
    for i := 0 to |files|
      invariant docs == Documents(files[..i], docLength)
    {
      var f := files[i];
      assert files[..i + 1][..i] == files[..i];
      if !IsHidden(f.name) {
        if docLength > 0 {
          var pieces := Splitter(docLength, f.contents);
          for j := 0 to |pieces|
            invariant docs == Documents(files[..i], docLength) + pieces[..j]
          {
            docs := docs + [pieces[j]];
            assert pieces[..j + 1] == pieces[..j] + [pieces[j]];
          }
          assert pieces[..|pieces|] == pieces;
        } else {
          docs := docs + [f.contents];
        }
      }
    }
    assert files[..|files|] == files;
  }

  // ---------------------------------------------------------------------
  // get_stop_words

  /** `s.replace("\r\n", "\n").replace("\r", "\n")`: no carriage return is
      left, and there is one line feed per line break of `s`. */
  function NormalizeNewlines(s: string): (r: string)
    ensures '\r' !in r
    ensures Occurrences(r, '\n') == LineBreaks(s)
    ensures '\r' !in s ==> r == s
  {
    ReplaceCrCounts(ReplaceCrLf(s));
    var r := ReplaceChar(ReplaceCrLf(s), '\r', '\n');
    assert '\r' !in s ==> r == s;
    r
  }

  /** The entries one stop-word file contributes: its normalised lines. */
  function FileStopWords(f: File): seq<string> {
    SplitOn(NormalizeNewlines(f.contents), '\n')
  }

  /** The stop list built from `files`, file by file and line by line. */
  function StopWords(files: seq<File>): seq<string> {
    if files == [] then []
    else
      var f := files[|files| - 1];
      StopWords(files[..|files| - 1]) + (if IsHidden(f.name) then [] else FileStopWords(f))
  }

  /** The sum over the visible files of (line breaks + 1). */
  function LineTotal(files: seq<File>): nat {
    if files == [] then 0
    else
      var f := files[|files| - 1];
      LineTotal(files[..|files| - 1]) + (if IsHidden(f.name) then 0 else LineBreaks(f.contents) + 1)
  }

  /** `get_stop_words(path)` on the directory listing `files`. */
  method GetStopWords(files: seq<File>) returns (stopWords: seq<string>)
    ensures stopWords == StopWords(files)
  {
    stopWords := [];
    for i := 0 to |files|
      invariant stopWords == StopWords(files[..i])
    {
      var f := files[i];
      assert files[..i + 1][..i] == files[..i];
      if !IsHidden(f.name) {
        var text := ReplaceCrLf(f.contents);
        text := ReplaceChar(text, '\r', '\n');
        var words := SplitOn(text, '\n');
        for j := 0 to |words|
          invariant stopWords == StopWords(files[..i]) + words[..j]
        {
          stopWords := stopWords + [words[j]];
          assert words[..j + 1] == words[..j] + [words[j]];
        }
        assert words[..|words|] == words;
      }
    }
    assert files[..|files|] == files;
  }

  // ---------------------------------------------------------------------
  // iter_docs and MyCorpus

  /**
   * Whether `x in stoplist` holds for the unicode token `x`. The stop words
   * are the byte strings read from the files; Python 2 compares a unicode
   * string with a byte string by decoding the bytes as ASCII, and a stop word
   * that does not decode compares unequal (the warning it raises is
   * silenced). So only an ASCII token can equal a stop word, and then exactly
   * when the characters agree.
   */
  predicate IsStopWord(x: string, stoplist: seq<string>) {
    IsAscii(x) && x in stoplist
  }

  /** `(x for x in tokens if x not in stoplist)`. */
  function RemoveStopWords(tokens: seq<string>, stoplist: seq<string>): (r: seq<string>)
    ensures forall i :: 0 <= i < |r| ==> !IsStopWord(r[i], stoplist)
  {
    if tokens == [] then []
    else
      var t := tokens[|tokens| - 1];
      RemoveStopWords(tokens[..|tokens| - 1], stoplist) + (if IsStopWord(t, stoplist) then [] else [t])
  }

  /** `iter_docs(doclist, stoplist)`: one filtered token stream per document. */
  function TokenStreams(doclist: seq<string>, stoplist: seq<string>, tokenize: string -> seq<string>)
    : (streams: seq<seq<string>>)
    ensures |streams| == |doclist|
    ensures forall i :: 0 <= i < |streams| ==> streams[i] == RemoveStopWords(tokenize(doclist[i]), stoplist)
  {
    if doclist == [] then []
    else [RemoveStopWords(tokenize(doclist[0]), stoplist)] + TokenStreams(doclist[1..], stoplist, tokenize)
  }

  /** `a` is `b` with some elements deleted, the rest kept in order. */
  predicate IsSubsequence(a: seq<string>, b: seq<string>) {
    if a == [] then true
    else if b == [] then false
    else if a[|a| - 1] == b[|b| - 1] then IsSubsequence(a[..|a| - 1], b[..|b| - 1])
    else IsSubsequence(a, b[..|b| - 1])
  }

  /** The thresholds `MyCorpus.__init__` passes to `filter_extremes`. */
  function PruningThresholds(numDocs: nat): (t: Thresholds)
    ensures t.noBelow == 2 && t.keepN == 100000
    ensures t.noAbove == 1.0 <==> numDocs < 5
    ensures numDocs >= 5 ==> t.noAbove == 0.95
  {
    Thresholds(2, if numDocs < 5 then 1.0 else 0.95, 100000)
  }

  /** The corpus: its documents, its stop list and the pruning thresholds
      chosen when it was built. */
  class MyCorpus {
    const doclist: seq<string>
    const stoplist: seq<string>
    const thresholds: Thresholds

    /** `MyCorpus(topdir, stopdir, doc_length)` on the two directory listings. */
    constructor (documentFiles: seq<File>, stopWordFiles: seq<File>, docLength: int)
      ensures doclist == Documents(documentFiles, docLength)
      ensures stoplist == StopWords(stopWordFiles)
      ensures thresholds == PruningThresholds(|doclist|)
    {
      var docs := GetDocuments(documentFiles, docLength);
      var stops := GetStopWords(stopWordFiles);
      doclist := docs;
      stoplist := stops;
      thresholds := PruningThresholds(|docs|);
    }

    /** `__iter__`: the bag of words of each document, in document order. */
    function Bags(tokenize: string -> seq<string>, doc2bow: seq<string> -> Bag): (bags: seq<Bag>)
      ensures |bags| == |doclist|
      ensures forall i :: 0 <= i < |bags| ==>
        bags[i] == doc2bow(RemoveStopWords(tokenize(doclist[i]), stoplist))
    {
      var streams := TokenStreams(doclist, stoplist, tokenize);
      seq(|streams|, i requires 0 <= i < |streams| => doc2bow(streams[i]))
    }
  }

  // ---------------------------------------------------------------------
  // Lemmas: splitter

  function Min(a: int, b: int): int {
    if a <= b then a else b
  }

  /** PieceCount(w, n) is ceil(w / n): the least p with w <= p * n. */
  lemma {:induction false} PieceCountIsCeiling(w: nat, n: nat)
    requires n > 0
    ensures w <= PieceCount(w, n) * n
    ensures w > 0 ==> (PieceCount(w, n) - 1) * n < w
    ensures w == 0 ==> PieceCount(w, n) == 0
    decreases w
  {
    if w > n {
      PieceCountIsCeiling(w - n, n);
      var p := PieceCount(w - n, n);
      assert (1 + p) * n == p * n + n;
      assert p * n == (p - 1) * n + n;
    }
  }

  /** A text of w > 0 words is cut into ceil(w / n) pieces; zero words give none. */
  lemma {:induction false} PiecesCount(ws: seq<string>, n: nat)
    requires n > 0
    ensures |Pieces(ws, n)| == PieceCount(|ws|, n)
    decreases |ws|
  {
    if |ws| > n {
      PiecesCount(ws[n..], n);
    }
  }

  /** Piece k holds exactly the words at positions k*n up to (k+1)*n, as the
      slice `pieces[i:i+n]` with i = k*n does. */
  lemma {:induction false} PiecesAt(ws: seq<string>, n: nat, k: nat)
    requires n > 0 && AllWords(ws)
    requires k < |Pieces(ws, n)|
    ensures k * n < |ws|
    ensures Words(Pieces(ws, n)[k]) == ws[k * n .. Min((k + 1) * n, |ws|)]
    decreases |ws|
  {
    if k == 0 {
      PiecesFirst(ws, n);
    } else {
      PiecesLater(ws, n, k);
      PiecesAt(ws[n..], n, k - 1);
      PiecesAtShift(ws, n, k);
    }
  }

  /** The bounds of piece `k - 1` of the words after the first group, moved
      `n` words on, are the bounds of piece `k` of all the words. */
  lemma PiecesAtShift(ws: seq<string>, n: nat, k: nat)
    requires 0 < k && n <= |ws| && (k - 1) * n < |ws[n..]|
    ensures (k - 1) * n + n == k * n && k * n < |ws|
    ensures ws[n..][(k - 1) * n .. Min(k * n, |ws[n..]|)] == ws[k * n .. Min((k + 1) * n, |ws|)]
  {
    ShiftBounds(k, n, |ws|);
    SliceShift(ws, n, (k - 1) * n, Min(k * n, |ws| - n));
  }

  /** The first piece holds the first `n` words, or all of them if fewer. */
  lemma PiecesFirst(ws: seq<string>, n: nat)
    requires n > 0 && AllWords(ws) && |Pieces(ws, n)| > 0
    ensures 0 < |ws| && Words(Pieces(ws, n)[0]) == ws[0 .. Min(n, |ws|)]
  {
    if |ws| <= n {
      assert ws[0 .. Min(n, |ws|)] == ws;
      WordsOfJoin(ws);
    } else {
      PiecesSplit(ws, n);
      AllWordsParts(ws, n);
      WordsOfJoin(ws[..n]);
    }
  }

  /** Every later piece is a piece of the words after the first group. */
  lemma PiecesLater(ws: seq<string>, n: nat, k: nat)
    requires n > 0 && AllWords(ws) && 0 < k < |Pieces(ws, n)|
    ensures n < |ws| && AllWords(ws[n..])
    ensures k - 1 < |Pieces(ws[n..], n)| && Pieces(ws, n)[k] == Pieces(ws[n..], n)[k - 1]
  {
    PiecesSplit(ws, n);
    AllWordsParts(ws, n);
  }


  /** Index shift for `PiecesAtShift`, the recursive step of `PiecesAt`: a slice of the words
      after the first group is a slice of all words, `n` further on. */
  lemma SliceShift(ws: seq<string>, n: nat, lo: nat, hi: nat)
    requires n <= |ws| && lo <= hi <= |ws| - n
    ensures ws[n..][lo .. hi] == ws[lo + n .. hi + n]
  {
  }

  /** A text of more than `n` words: its first group, then the rest. */
  lemma PiecesSplit(ws: seq<string>, n: nat)
    requires 0 < n < |ws|
    ensures Pieces(ws, n) == [Join(" ", ws[..n])] + Pieces(ws[n..], n)
  {
  }

  lemma AllWordsParts(ws: seq<string>, n: nat)
    requires AllWords(ws) && n <= |ws|
    ensures AllWords(ws[..n]) && AllWords(ws[n..])
  {
    assert forall i :: 0 <= i < n ==> ws[..n][i] == ws[i];
    assert forall i :: 0 <= i < |ws| - n ==> ws[n..][i] == ws[n + i];
  }

  lemma WordsOfEachCons(p: string, ps: seq<string>)
    ensures WordsOfEach([p] + ps) == Words(p) + WordsOfEach(ps)
  {
    assert ([p] + ps)[1..] == ps;
  }
  lemma ShiftBounds(k: nat, n: nat, len: nat)
    requires 0 < k && n <= len
    ensures (k - 1) * n + n == k * n
    ensures Min(k * n, len - n) + n == Min((k + 1) * n, len)
  {
    assert (k + 1) * n == k * n + n;
    assert k * n == (k - 1) * n + n;
  }

  /** Every piece but the last has exactly n words; the last has 1 to n. */
  lemma {:induction false} PiecesSizes(ws: seq<string>, n: nat)
    requires n > 0 && AllWords(ws)
    ensures forall k :: 0 <= k < |Pieces(ws, n)| - 1 ==> |Words(Pieces(ws, n)[k])| == n
    ensures |Pieces(ws, n)| > 0 ==> 1 <= |Words(Pieces(ws, n)[|Pieces(ws, n)| - 1])| <= n
    decreases |ws|
  {
    if 0 < |ws| <= n {
      WordsOfJoin(ws);
    } else if |ws| > n {
      var first := Join(" ", ws[..n]);
      var rest := Pieces(ws[n..], n);
      PiecesSplit(ws, n);
      AllWordsParts(ws, n);
      WordsOfJoin(ws[..n]);
      PiecesSizes(ws[n..], n);
      var ps := [first] + rest;
      forall k | 1 <= k < |ps| ensures ps[k] == rest[k - 1] {}
    }
  }
  /** `splitter(n, s)` yields ceil(w / n) pieces for the w words of `s`; every
      piece but the last has exactly n words and the last has 1 to n. */
  lemma SplitterShape(n: nat, s: string)
    requires n > 0
    ensures |Splitter(n, s)| == PieceCount(|Words(s)|, n)
    ensures forall k :: 0 <= k < |Splitter(n, s)| - 1 ==> |Words(Splitter(n, s)[k])| == n
    ensures |Splitter(n, s)| > 0 ==> 1 <= |Words(Splitter(n, s)[|Splitter(n, s)| - 1])| <= n
  {
    PiecesCount(Words(s), n);
    PiecesSizes(Words(s), n);
  }

  /** Splitting every piece on whitespace and concatenating gives back the
      words of the text, in order. */
  lemma {:induction false} PiecesRoundTrip(ws: seq<string>, n: nat)
    requires n > 0 && AllWords(ws)
    ensures WordsOfEach(Pieces(ws, n)) == ws
    decreases |ws|
  {
    if |ws| == 0 {
    } else if |ws| <= n {
      WordsOfJoin(ws);
      WordsOfEachCons(Join(" ", ws), []);
      assert ws + [] == ws;
    } else {
      var first := Join(" ", ws[..n]);
      var rest := Pieces(ws[n..], n);
      PiecesSplit(ws, n);
      AllWordsParts(ws, n);
      WordsOfJoin(ws[..n]);
      PiecesRoundTrip(ws[n..], n);
      WordsOfEachCons(first, rest);
      assert ws[..n] + ws[n..] == ws;
    }
  }
  // ---------------------------------------------------------------------
  // Lemmas: get_documents

  /** Documents of consecutive listings come out in listing order. */
  lemma {:induction false} DocumentsAppend(a: seq<File>, b: seq<File>, docLength: int)
    ensures Documents(a + b, docLength) == Documents(a, docLength) + Documents(b, docLength)
    decreases |b|
  {
    if b == [] {
      assert a + b == a;
    } else {
      var init, final := b[..|b| - 1], b[|b| - 1];
      var ab := a + b;
      assert ab[..|ab| - 1] == a + init;
      assert ab[|ab| - 1] == final;
      assert b[..|b| - 1] == init;
      var last := ListedDocuments(final, docLength);
      assert Documents(ab, docLength) == Documents(a + init, docLength) + last;
      assert Documents(b, docLength) == Documents(init, docLength) + last;
      DocumentsAppend(a, init, docLength);
      ConcatAssoc3(Documents(a, docLength), Documents(init, docLength), last);
    }
  }

  /** Regrouping the three runs of documents in the last step of
      `DocumentsAppend`; proved apart, so that step stays cheap. */
  lemma ConcatAssoc3(x: seq<string>, y: seq<string>, z: seq<string>)
    ensures (x + y) + z == x + (y + z)
  {
  }

  /** Without splitting, every visible file gives exactly one document. */
  lemma {:induction false} DocumentCountWhole(files: seq<File>, docLength: int)
    requires docLength <= 0
    ensures |Documents(files, docLength)| == VisibleCount(files)
  {
    if files != [] {
      DocumentCountWhole(files[..|files| - 1], docLength);
    }
  }

  /** With splitting, the document count is the sum of ceil(words / docLength)
      over the visible files. */
  lemma {:induction false} DocumentCountChunked(files: seq<File>, docLength: nat)
    requires docLength > 0
    ensures |Documents(files, docLength)| == PieceTotal(files, docLength)
  {
    if files != [] {
      var f := files[|files| - 1];
      DocumentCountChunked(files[..|files| - 1], docLength);
      PiecesCount(Words(f.contents), docLength);
    }
  }

  // ---------------------------------------------------------------------
  // Lemmas: get_stop_words

  lemma {:induction false} ReplaceCrCounts(t: string)
    ensures Occurrences(ReplaceChar(t, '\r', '\n'), '\n') == Occurrences(t, '\n') + Occurrences(t, '\r')
  {
    if t != [] {
      ReplaceCrCounts(t[1..]);
      assert ReplaceChar(t, '\r', '\n')[1..] == ReplaceChar(t[1..], '\r', '\n');
    }
  }

  /** A stop-word file contributes one entry per line: line breaks + 1,
      empty lines included, and the entries joined by "\n" give back the
      normalised text unchanged (no case folding, no deduplication). */
  /** Normalising works piece by piece, unless the cut falls inside a
      "\r\n" pair. */
  lemma NormalizeAppend(a: string, b: string)
    requires a == [] || b == [] || a[|a| - 1] != '\r' || b[0] != '\n'
    ensures NormalizeNewlines(a + b) == NormalizeNewlines(a) + NormalizeNewlines(b)
  {
    ReplaceCrLfAppend(a, b);
    ReplaceCharAppend(ReplaceCrLf(a), ReplaceCrLf(b), '\r', '\n');
  }

  /** A line-break separator, of any of the three kinds `get_stop_words`
      handles, normalises to one line feed. */
  predicate IsLineBreak(sep: string) {
    sep == "\r\n" || sep == "\r" || sep == "\n"
  }

  predicate IsLine(l: string) {
    '\r' !in l && '\n' !in l
  }

  /** Lines separated by any line breaks, Windows, old Mac or Unix, come out
      of normalisation joined by `\n`. */
  lemma {:induction false} NormalizeJoin(sep: string, ls: seq<string>)
    requires IsLineBreak(sep)
    requires forall i :: 0 <= i < |ls| ==> IsLine(ls[i])
    ensures NormalizeNewlines(Join(sep, ls)) == Join("\n", ls)
  {
    if |ls| <= 1 {
      NormalizeJoinShort(sep, ls);
    } else {
      NormalizeJoin(sep, ls[1..]);
      NormalizeJoinStep(sep, ls);
    }
  }

  lemma NormalizeJoinShort(sep: string, ls: seq<string>)
    requires |ls| <= 1
    requires forall i :: 0 <= i < |ls| ==> IsLine(ls[i])
    ensures NormalizeNewlines(Join(sep, ls)) == Join("\n", ls)
  {
    if |ls| == 0 {
      assert Join(sep, ls) == [] == Join("\n", ls);
    } else {
      assert IsLine(ls[0]);
      assert Join(sep, ls) == ls[0] == Join("\n", ls);
    }
  }

  /** One line more in front of lines already known to normalise. */
  lemma NormalizeJoinStep(sep: string, ls: seq<string>)
    requires IsLineBreak(sep) && |ls| > 1
    requires forall i :: 0 <= i < |ls| ==> IsLine(ls[i])
    requires NormalizeNewlines(Join(sep, ls[1..])) == Join("\n", ls[1..])
    ensures NormalizeNewlines(Join(sep, ls)) == Join("\n", ls)
  {
    var rest := Join(sep, ls[1..]);
    if sep == "\r" {
      JoinStartsWithLine(ls[1..]);
    }
    NormalizeBreakThen(sep, rest);
    assert IsLine(ls[0]);
    JoinCons(sep, ls);
    JoinCons("\n", ls);
    NormalizeAppend(ls[0], sep + rest);
  }

  /** The join of lines by lone carriage returns does not start with a line
      feed. */
  lemma JoinStartsWithLine(ls: seq<string>)
    requires |ls| >= 1
    requires forall i :: 0 <= i < |ls| ==> IsLine(ls[i])
    ensures var r := Join("\r", ls); r == [] || r[0] != '\n'
  {
    var r := Join("\r", ls);
    assert IsLine(ls[0]);
    if ls[0] != [] {
      assert r[..|ls[0]|] == ls[0];
      assert r[0] == ls[0][0];
    } else if |ls| > 1 {
      assert r == ls[0] + "\r" + Join("\r", ls[1..]);
      assert r[0] == '\r';
    }
  }

  /** A line break followed by text that does not start with a line feed
      normalises to one line feed followed by the normalised text. */
  lemma NormalizeBreakThen(sep: string, rest: string)
    requires IsLineBreak(sep)
    requires sep == "\r" ==> rest == [] || rest[0] != '\n'
    ensures NormalizeNewlines(sep + rest) == "\n" + NormalizeNewlines(rest)
  {
    NormalizeAppend(sep, rest);
    assert NormalizeNewlines(sep) == "\n";
  }

  /** A stop-word file whose lines are `ls` contributes exactly `ls`,
      whichever line breaks separate them. */
  lemma FileStopWordsOfLines(name: string, sep: string, ls: seq<string>)
    requires IsLineBreak(sep) && |ls| >= 1
    requires forall i :: 0 <= i < |ls| ==> IsLine(ls[i])
    ensures FileStopWords(File(name, Join(sep, ls))) == ls
  {
    NormalizeJoin(sep, ls);
    SplitOnJoin(ls, '\n');
  }

  lemma FileStopWordsLines(f: File)
    ensures |FileStopWords(f)| == LineBreaks(f.contents) + 1
    ensures Join("\n", FileStopWords(f)) == NormalizeNewlines(f.contents)
  {
    SplitOnCount(NormalizeNewlines(f.contents), '\n');
    JoinSplitOn(NormalizeNewlines(f.contents), '\n');
  }

  /** No stop-word entry holds a line-break character, and there are as many
      entries as lines in the visible files. */
  lemma {:induction false} StopWordsLines(files: seq<File>)
    ensures |StopWords(files)| == LineTotal(files)
    ensures forall i :: 0 <= i < |StopWords(files)| ==>
      '\r' !in StopWords(files)[i] && '\n' !in StopWords(files)[i]
  {
    if files != [] {
      var f := files[|files| - 1];
      StopWordsLines(files[..|files| - 1]);
      FileStopWordsLines(f);
      SplitOnExcludes(NormalizeNewlines(f.contents), '\n', '\r');
    }
  }

  // ---------------------------------------------------------------------
  // Lemmas: iter_docs

  /** Filtering drops every occurrence of a stop word and keeps every
      occurrence of any other token; a token with a non-ASCII character is
      never dropped. */
  lemma {:induction false} RemoveStopWordsCounts(tokens: seq<string>, stoplist: seq<string>, t: string)
    ensures multiset(RemoveStopWords(tokens, stoplist))[t] ==
      if IsAscii(t) && t in stoplist then 0 else multiset(tokens)[t]
  {
    if tokens != [] {
      var init := tokens[..|tokens| - 1];
      RemoveStopWordsCounts(init, stoplist, t);
      assert tokens == init + [tokens[|tokens| - 1]];
    }
  }

  /** Filtering keeps the surviving tokens in their original order. */
  lemma {:induction false} RemoveStopWordsOrder(tokens: seq<string>, stoplist: seq<string>)
    ensures IsSubsequence(RemoveStopWords(tokens, stoplist), tokens)
  {
    if tokens != [] {
      var init := tokens[..|tokens| - 1];
      var t := tokens[|tokens| - 1];
      var r := RemoveStopWords(init, stoplist);
      RemoveStopWordsOrder(init, stoplist);
      assert tokens[..|tokens| - 1] == init;
      if IsStopWord(t, stoplist) {
        assert RemoveStopWords(tokens, stoplist) == r + [];
        assert r + [] == r;
        if r != [] {
          assert !IsStopWord(r[|r| - 1], stoplist);
        }
      } else {
        assert (r + [t])[..|r|] == r;
      }
    }
  }
}
