/**
 * `splitSentencesJa` (assets/js/app.js): collapse whitespace, cut after each
 * sentence-ending mark, keep at most five trimmed non-empty sentences, with a
 * fixed-width chunking fallback.
 */
module Sentences {
  import opened Wrappers
  import opened Text

  /** At most this many sentences are kept (`slice(0, 5)`, `chunks.length < 5`). */
  const MaxSentences: nat := 5

  /** Width of a fallback chunk (`buf.slice(0, 34)`). */
  const ChunkWidth: nat := 34

  /** The sentence-ending marks: U+3002, U+FF0E, U+FF01, U+FF1F, '!' and '?'. */
  predicate IsMark(c: char) {
    c == '\U{3002}' || c == '\U{FF0E}' || c == '\U{FF01}' || c == '\U{FF1F}' || c == '!' || c == '?'
  }

  function Last(s: string): char
    requires s != []
  {
    s[|s| - 1]
  }

  /**
   * `s.split(/(?<=[。．！？!?])/u)`: `s` is cut at every position that follows a
   * mark, except the end of the string; the empty string gives one empty piece.
   */
  function Pieces(s: string): (r: seq<string>)
    ensures |r| >= 1
    decreases |s|
  {
    if |s| <= 1 then [s]
    else if IsMark(s[0]) then [s[..1]] + Pieces(s[1..])
    else
      var rest := Pieces(s[1..]);
      [[s[0]] + rest[0]] + rest[1..]
  }

  /** The pieces glue back to the string they were cut from. */
  lemma {:induction false} PiecesConcat(s: string)
    ensures Concat(Pieces(s)) == s
    decreases |s|
  {
    if |s| <= 1 {
      ConcatFront(s, []);
    } else if IsMark(s[0]) {
      PiecesConcat(s[1..]);
      ConcatFront(s[..1], Pieces(s[1..]));
      assert s == s[..1] + s[1..];
    } else {
      PiecesConcat(s[1..]);
      ConcatJoinFirst([s[0]], Pieces(s[1..]));
      assert s == [s[0]] + s[1..];
    }
  }

  /** Proof helper: gluing a list with a given first piece. */
  lemma ConcatFront(x: string, ys: seq<string>)
    ensures Concat([x] + ys) == x + Concat(ys)
  {
    assert ([x] + ys)[1..] == ys;
  }

  /** Gluing `x` onto the first piece glues it onto the whole. */
  lemma ConcatJoinFirst(x: string, ps: seq<string>)
    requires ps != []
    ensures Concat([x + ps[0]] + ps[1..]) == x + Concat(ps)
  {
    var p, rest := ps[0], ps[1..];
    assert ps == [p] + rest;
    ConcatFront(x + p, rest);
    ConcatFront(p, rest);
    ConcatAssoc(x, p, Concat(rest));
  }

  /**
   * Where the cuts are: no piece is empty (for non-empty `s`), every piece but
   * the last ends with a mark, and no piece holds a mark before its end.
   */
  lemma {:induction false} PiecesCuts(s: string)
    ensures s != [] ==> forall k :: 0 <= k < |Pieces(s)| ==> Pieces(s)[k] != []
    ensures forall k :: 0 <= k < |Pieces(s)| - 1 ==> Pieces(s)[k] != [] && IsMark(Last(Pieces(s)[k]))
    ensures forall k, i :: 0 <= k < |Pieces(s)| && 0 <= i < |Pieces(s)[k]| - 1 ==> !IsMark(Pieces(s)[k][i])
    decreases |s|
  {
    var r := Pieces(s);
    if |s| <= 1 {
    } else if IsMark(s[0]) {
      var rest := Pieces(s[1..]);
      PiecesCuts(s[1..]);
      assert forall k :: 0 < k < |r| ==> r[k] == rest[k - 1];
    } else {
      var rest := Pieces(s[1..]);
      PiecesCuts(s[1..]);
      assert r[0] == [s[0]] + rest[0];
      assert forall k :: 0 < k < |r| ==> r[k] == rest[k];
      forall k, i | 0 <= k < |r| && 0 <= i < |r[k]| - 1 ensures !IsMark(r[k][i]) {
        if k == 0 && i > 0 {
          assert r[0][i] == rest[0][i - 1];
        }
      }
      if |r| > 1 {
        assert Last(r[0]) == Last(rest[0]);
      }
    }
  }

  /** What the split produces: its pieces glue back to `s`, cut exactly after the marks. */
  lemma PiecesSpec(s: string)
    ensures Concat(Pieces(s)) == s
    ensures s != [] ==> forall k :: 0 <= k < |Pieces(s)| ==> Pieces(s)[k] != []
    ensures forall k :: 0 <= k < |Pieces(s)| - 1 ==> Pieces(s)[k] != [] && IsMark(Last(Pieces(s)[k]))
    ensures forall k, i :: 0 <= k < |Pieces(s)| && 0 <= i < |Pieces(s)[k]| - 1 ==> !IsMark(Pieces(s)[k][i])
  {
    PiecesConcat(s);
    PiecesCuts(s);
  }

  /** `parts` in the source: the trimmed non-empty pieces. */
  function Parts(s: string): seq<string> {
    DropEmpty(TrimAll(Pieces(s)))
  }

  /** Each part is non-empty and trimmed. */
  lemma PartShape(s: string, k: nat)
    requires k < |Parts(s)|
    ensures Parts(s)[k] != [] && Trimmed(Parts(s)[k])
  {
    var ts := TrimAll(Pieces(s));
    assert Parts(s)[k] in ts;
  }

  /** The fallback loop's result: up to `k` chunks of `ChunkWidth` characters from the front of `buf`. */
  function Chunks(buf: string, k: nat): (r: seq<string>)
    decreases k
  {
    if buf == [] || k == 0 then []
    else
      var n := Min(ChunkWidth, |buf|);
      [buf[..n]] + Chunks(buf[n..], k - 1)
  }

  /** At most `k` non-empty chunks of at most `ChunkWidth` characters, which are `buf` cut up, or its front. */
  lemma {:induction false} ChunksSpec(buf: string, k: nat)
    ensures |Chunks(buf, k)| <= k
    ensures forall j :: 0 <= j < |Chunks(buf, k)| ==> 0 < |Chunks(buf, k)[j]| <= ChunkWidth
    ensures Concat(Chunks(buf, k)) <= buf
    ensures |buf| <= ChunkWidth * k ==> Concat(Chunks(buf, k)) == buf
    decreases k
  {
    if buf != [] && k != 0 {
      var n := Min(ChunkWidth, |buf|);
      ChunksSpec(buf[n..], k - 1);
      var r := Chunks(buf, k);
      assert r == [buf[..n]] + Chunks(buf[n..], k - 1);
      assert r[1..] == Chunks(buf[n..], k - 1);
      assert buf == buf[..n] + buf[n..];
      assert Concat(r) == buf[..n] + Concat(Chunks(buf[n..], k - 1));
    }
  }

  /**
   * The chunks exactly: each but the last is `ChunkWidth` characters wide, glued together they are the first
   * `ChunkWidth * k` characters of `buf` (all of it when shorter), and text that long gives `k` chunks.
   */
  lemma {:induction false} ChunksExact(buf: string, k: nat)
    ensures forall j :: 0 <= j < |Chunks(buf, k)| - 1 ==> |Chunks(buf, k)[j]| == ChunkWidth
    ensures Concat(Chunks(buf, k)) == buf[..Min(|buf|, ChunkWidth * k)]
    ensures |buf| >= ChunkWidth * k ==> |Chunks(buf, k)| == k
    decreases k
  {
    if buf == [] || k == 0 {
      assert buf[..Min(|buf|, ChunkWidth * k)] == [];
    } else {
      var n := Min(ChunkWidth, |buf|);
      var tail := buf[n..];
      ChunksExact(tail, k - 1);
      var rest := Chunks(tail, k - 1);
      var r := Chunks(buf, k);
      assert r == [buf[..n]] + rest;
      assert r[1..] == rest;
      assert ChunkWidth * k == ChunkWidth * (k - 1) + ChunkWidth;
      if rest != [] {
        assert tail != [] && n == ChunkWidth;
      }
      ChunksGlue(buf, n, Min(|tail|, ChunkWidth * (k - 1)), Min(|buf|, ChunkWidth * k));
    }
  }

  /** Proof helper: the prefix arithmetic behind `ChunksExact`. */
  lemma ChunksGlue(buf: string, n: nat, m: nat, total: nat)
    requires n <= |buf| && m <= |buf| - n && total == n + m
    ensures buf[..n] + buf[n..][..m] == buf[..total]
  {
  }

  /** Taking one chunk off the front of `buf` moves it to the end of the chunks so far. */
  lemma ChunksStep(done: seq<string>, buf: string, k: nat)
    requires buf != [] && k > 0
    ensures done + Chunks(buf, k) ==
              (done + [buf[..Min(ChunkWidth, |buf|)]]) + Chunks(buf[Min(ChunkWidth, |buf|)..], k - 1)
  {
    var n := Min(ChunkWidth, |buf|);
    assert Chunks(buf, k) == [buf[..n]] + Chunks(buf[n..], k - 1);
  }

  /** `splitSentencesJa(text)`, as a value. */
  function SplitSentences(text: string): seq<string> {
    if text == [] then [] else SentencesOf(Trim(Collapse(text)))
  }

  /** The sentences of the collapsed and trimmed text `s`: its first five parts, or the fallback chunks. */
  function SentencesOf(s: string): seq<string> {
    if s == [] then []
    else
      var parts := Parts(s);
      if parts == [] then Chunks(s, MaxSentences) else parts[..Min(MaxSentences, |parts|)]
  }

  /** `splitSentencesJa(text)`, with the fallback's `while` loop over `buf` and `chunks`. */
  method SplitSentencesJa(text: string) returns (r: seq<string>)
    ensures r == SplitSentences(text)
  {
    if text == [] {
      return [];
    }
    var s := Trim(Collapse(text));
    if s == [] {
      return [];
    }
    var parts := Parts(s);
    if parts == [] {
      // Never taken: see FallbackUnreachable.
      r := ChunkFallback(s);
    } else {
      r := parts[..Min(MaxSentences, |parts|)];
    }
  }

  /** The fallback `while` loop of `splitSentencesJa`, which fills `chunks` from `buf`. */
  method ChunkFallback(s: string) returns (chunks: seq<string>)
    ensures chunks == Chunks(s, MaxSentences)
  {
    chunks := [];
    var buf := s;
    while |buf| > 0 && |chunks| < MaxSentences
      invariant |chunks| <= MaxSentences
      invariant Chunks(s, MaxSentences) == chunks + Chunks(buf, MaxSentences - |chunks|)
      decreases |buf|
    {
      var n := Min(ChunkWidth, |buf|);
      ChunksStep(chunks, buf, MaxSentences - |chunks|);
      chunks := chunks + [buf[..n]];
      buf := buf[n..];
    }
    assert Chunks(buf, MaxSentences - |chunks|) == [];
  }

  lemma ConcatLast(ps: seq<string>)
    requires ps != [] && ps[|ps| - 1] != []
    ensures Concat(ps) != [] && Last(Concat(ps)) == Last(ps[|ps| - 1])
  {
    var n := |ps|;
    assert ps == ps[..n - 1] + [ps[n - 1]];
    ConcatAppend(ps[..n - 1], [ps[n - 1]]);
    assert Concat([ps[n - 1]]) == ps[n - 1];
  }

  /** A string with a non-whitespace character keeps a character when trimmed. */
  lemma TrimNonEmpty(p: string, i: nat)
    requires i < |p| && !IsSpace(p[i])
    ensures Trim(p) != []
  {
    TrimEmpty(p);
  }

  lemma MarkNotSpace(c: char)
    requires IsMark(c)
    ensures !IsSpace(c)
  {
  }

  /** Each piece of a non-empty trimmed string ends with a non-whitespace character. */
  lemma PieceEnd(s: string, k: nat)
    requires s != [] && Trimmed(s)
    requires k < |Pieces(s)|
    ensures Pieces(s)[k] != [] && !IsSpace(Last(Pieces(s)[k]))
  {
    var ps := Pieces(s);
    PiecesSpec(s);
    if k < |ps| - 1 {
      MarkNotSpace(Last(ps[k]));
    } else {
      ConcatLast(ps);
    }
  }

  /** Every piece of a non-empty trimmed string survives trimming, so `filter(Boolean)` drops nothing. */
  lemma PiecesSurviveTrim(s: string)
    requires s != [] && Trimmed(s)
    ensures Parts(s) == TrimAll(Pieces(s))
  {
    var ts := TrimAll(Pieces(s));
    forall k | 0 <= k < |ts| ensures ts[k] != [] {
      PieceSurvives(s, k);
    }
    DropEmptyKeeps(ts);
  }

  lemma PieceSurvives(s: string, k: nat)
    requires s != [] && Trimmed(s)
    requires k < |Pieces(s)|
    ensures Trim(Pieces(s)[k]) != []
  {
    PieceEnd(s, k);
    TrimNonEmpty(Pieces(s)[k], |Pieces(s)[k]| - 1);
  }

  /**
   * The fallback is dead code: a non-empty trimmed string always has at least
   * one part, so `parts.length === 0` never holds.
   */
  lemma FallbackUnreachable(s: string)
    requires s != [] && Trimmed(s)
    ensures Parts(s) != []
  {
    PiecesSurviveTrim(s);
  }

  /** The collapsed and trimmed text, what `s` holds in the source. */
  lemma NormalisedText(text: string)
    ensures StripSpaces(Trim(Collapse(text))) == StripSpaces(text)
    ensures Trim(Collapse(text)) == [] <==> AllSpaces(text)
  {
    TrimKeepsText(Collapse(text));
    CollapseKeepsText(text);
    StripSpacesEmpty(text);
    TrimEmpty(Trim(Collapse(text)));
    StripSpacesEmpty(Trim(Collapse(text)));
  }

  /** The sentences of a non-empty normalised text are its first five parts, and there is one at least. */
  lemma NormalSentences(s: string)
    requires s != [] && Trimmed(s)
    ensures Parts(s) != [] && SentencesOf(s) == Parts(s)[..Min(MaxSentences, |Parts(s)|)]
  {
    FallbackUnreachable(s);
  }

  /** On text with a non-whitespace character, the sentences are the first parts of the normalised text. */
  lemma SplitSentencesParts(text: string)
    requires !AllSpaces(text)
    ensures Trim(Collapse(text)) != [] && Parts(Trim(Collapse(text))) != []
    ensures SplitSentences(text) ==
              Parts(Trim(Collapse(text)))[..Min(MaxSentences, |Parts(Trim(Collapse(text)))|)]
  {
    NormalisedText(text);
    NormalSentences(Trim(Collapse(text)));
  }

  /** A normalised text has no sentences exactly when it is empty. */
  lemma SentencesOfEmpty(s: string)
    requires Trimmed(s)
    ensures SentencesOf(s) == [] <==> s == []
  {
    if s != [] {
      NormalSentences(s);
    }
  }

  /** No sentences exactly when the text is empty or all whitespace. */
  lemma SplitSentencesBlank(text: string)
    ensures SplitSentences(text) == [] <==> AllSpaces(text)
  {
    if text != [] {
      NormalisedText(text);
      SentencesOfEmpty(Trim(Collapse(text)));
    }
  }

  lemma SentencesOfShape(s: string)
    requires Trimmed(s)
    ensures |SentencesOf(s)| <= MaxSentences
    ensures forall k :: 0 <= k < |SentencesOf(s)| ==> SentencesOf(s)[k] != [] && Trimmed(SentencesOf(s)[k])
  {
    if s != [] {
      NormalSentences(s);
      var parts := Parts(s);
      var r := SentencesOf(s);
      forall k | 0 <= k < |r| ensures r[k] != [] && Trimmed(r[k]) {
        assert r[k] == parts[k];
        PartShape(s, k);
      }
    }
  }

  /** At most five sentences, each non-empty and trimmed. */
  lemma SplitSentencesShape(text: string)
    ensures |SplitSentences(text)| <= MaxSentences
    ensures forall k :: 0 <= k < |SplitSentences(text)| ==>
              SplitSentences(text)[k] != [] && Trimmed(SplitSentences(text)[k])
  {
    if text != [] {
      SentencesOfShape(Trim(Collapse(text)));
    }
  }

  /** The parts of the normalised text are that text, modulo whitespace. */
  lemma PartsKeepText(s: string)
    ensures StripSpaces(Concat(Parts(s))) == StripSpaces(s)
  {
    var ps := Pieces(s);
    PiecesConcat(s);
    TrimAllKeepsText(ps);
    DropEmptyConcat(TrimAll(ps));
  }

  /** Keeping the first `m` pieces keeps a prefix of the text modulo whitespace. */
  lemma TakeKeepsPrefix(ps: seq<string>, m: nat)
    requires m <= |ps|
    ensures StripSpaces(Concat(ps[..m])) <= StripSpaces(Concat(ps))
  {
    assert ps == ps[..m] + ps[m..];
    ConcatAppend(ps[..m], ps[m..]);
    StripSpacesAppend(Concat(ps[..m]), Concat(ps[m..]));
  }

  lemma SentencesOfOrder(s: string)
    requires Trimmed(s)
    ensures StripSpaces(Concat(SentencesOf(s))) <= StripSpaces(s)
    ensures |SentencesOf(s)| < MaxSentences ==> StripSpaces(Concat(SentencesOf(s))) == StripSpaces(s)
  {
    if s != [] {
      NormalSentences(s);
      var parts := Parts(s);
      PartsKeepText(s);
      var m := Min(MaxSentences, |parts|);
      TakeKeepsPrefix(parts, m);
      if |parts[..m]| < MaxSentences {
        assert parts[..m] == parts;
      }
    }
  }

  /**
   * The sentences are taken in their original order: glued together they are a
   * prefix of the text modulo whitespace, and all of it when fewer than five came back.
   */
  lemma SplitSentencesOrder(text: string)
    ensures StripSpaces(Concat(SplitSentences(text))) <= StripSpaces(text)
    ensures |SplitSentences(text)| < MaxSentences ==>
              StripSpaces(Concat(SplitSentences(text))) == StripSpaces(text)
  {
    if text != [] {
      NormalisedText(text);
      SentencesOfOrder(Trim(Collapse(text)));
    }
  }

  /** A string ending in non-whitespace loses only leading whitespace to `trim`. */
  lemma TrimSuffix(p: string)
    requires p != [] && !IsSpace(Last(p))
    ensures Trim(p) != [] && Trim(p) == p[|p| - |Trim(p)|..]
  {
    var t := TrimStart(p);
    assert t != [];
    assert t[|t| - 1] == p[|p| - 1];
    assert TrimEnd(t) == t;
  }

  /** Trimming a piece that ends in non-whitespace keeps its last character and adds no mark. */
  lemma TrimPieceMarks(p: string)
    requires p != [] && !IsSpace(Last(p))
    requires forall i :: 0 <= i < |p| - 1 ==> !IsMark(p[i])
    ensures Trim(p) != [] && Last(Trim(p)) == Last(p)
    ensures forall i :: 0 <= i < |Trim(p)| - 1 ==> !IsMark(Trim(p)[i])
  {
    TrimSuffix(p);
    var q := Trim(p);
    var off := |p| - |q|;
    assert q == p[off..];
    forall i | 0 <= i < |q| - 1 ensures !IsMark(q[i]) {
      assert q[i] == p[off + i];
    }
  }

  /** One part of a non-empty trimmed string: a trimmed piece, cut exactly after a mark. */
  lemma PartCuts(s: string, k: nat)
    requires s != [] && Trimmed(s)
    requires k < |Parts(s)|
    ensures k < |Parts(s)| - 1 ==> IsMark(Last(Parts(s)[k]))
    ensures forall i :: 0 <= i < |Parts(s)[k]| - 1 ==> !IsMark(Parts(s)[k][i])
  {
    var ps := Pieces(s);
    PiecesSurviveTrim(s);
    assert Parts(s)[k] == Trim(ps[k]);
    PiecesCuts(s);
    PieceEnd(s, k);
    TrimPieceMarks(ps[k]);
  }

  lemma SentencesOfMarks(s: string)
    requires Trimmed(s)
    ensures forall k :: 0 <= k < |SentencesOf(s)| - 1 ==>
              SentencesOf(s)[k] != [] && IsMark(Last(SentencesOf(s)[k]))
    ensures forall k, i :: 0 <= k < |SentencesOf(s)| && 0 <= i < |SentencesOf(s)[k]| - 1 ==>
              !IsMark(SentencesOf(s)[k][i])
  {
    if s != [] {
      NormalSentences(s);
      var parts := Parts(s);
      var r := SentencesOf(s);
      forall k | 0 <= k < |r|
        ensures r[k] != [] && (k < |r| - 1 ==> IsMark(Last(r[k])))
        ensures forall i :: 0 <= i < |r[k]| - 1 ==> !IsMark(r[k][i])
      {
        assert r[k] == parts[k];
        PartShape(s, k);
        PartCuts(s, k);
      }
    }
  }

  /**
   * The sentences are cut exactly after the marks: each but the last ends with
   * a mark, and none holds a mark before its last character.
   */
  lemma SplitSentencesMarks(text: string)
    ensures forall k :: 0 <= k < |SplitSentences(text)| - 1 ==>
              SplitSentences(text)[k] != [] && IsMark(Last(SplitSentences(text)[k]))
    ensures forall k, i :: 0 <= k < |SplitSentences(text)| && 0 <= i < |SplitSentences(text)[k]| - 1 ==>
              !IsMark(SplitSentences(text)[k][i])
  {
    if text != [] {
      SentencesOfMarks(Trim(Collapse(text)));
    }
  }

  /** Text without whitespace is left alone by the collapse. */
  lemma {:induction false} CollapseNoSpace(s: string)
    requires forall i :: 0 <= i < |s| ==> !IsSpace(s[i])
    ensures Collapse(s) == s
  {
    if s != [] {
      CollapseNoSpace(s[1..]);
    }
  }

  /** A mark-free word in front of a non-empty text joins that text's first piece. */
  lemma {:induction false} PiecesAfterWord(w: string, t: string)
    requires forall i :: 0 <= i < |w| ==> !IsMark(w[i])
    requires t != []
    ensures Pieces(w + t) == [w + Pieces(t)[0]] + Pieces(t)[1..]
  {
    if w == [] {
      var p := Pieces(t);
      assert w + t == t && w + p[0] == p[0];
      assert p == [p[0]] + p[1..];
    } else {
      var p := Pieces(t);
      var s := w + t;
      assert |s| >= 2 && s[0] == w[0] && !IsMark(s[0]);
      assert s[1..] == w[1..] + t;
      PiecesAfterWord(w[1..], t);
      PiecesWordStep(s);
      HeadTail(w[1..] + p[0], p[1..]);
      assert [w[0]] + (w[1..] + p[0]) == w + p[0];
    }
  }

  /** One unfolding of `Pieces` at a character that is not a mark. */
  lemma PiecesWordStep(s: string)
    requires |s| > 1 && !IsMark(s[0])
    ensures Pieces(s) == [[s[0]] + Pieces(s[1..])[0]] + Pieces(s[1..])[1..]
  {
  }

  /** Proof helper: the head and tail of a list with a given first element. */
  lemma HeadTail(x: string, ys: seq<string>)
    ensures ([x] + ys)[0] == x && ([x] + ys)[1..] == ys
  {
  }

  predicate Plain(w: string) {
    w != [] && forall i :: 0 <= i < |w| ==> !IsMark(w[i]) && !IsSpace(w[i])
  }

  lemma TwoSentencesPieces(a: string, m1: char, b: string, m2: char)
    requires Plain(a) && Plain(b) && IsMark(m1) && IsMark(m2)
    ensures Pieces(a + [m1] + b + [m2]) == [a + [m1], b + [m2]]
  {
    ClosedWordPieces(b, m2);
    var tail := [m1] + (b + [m2]);
    MarkFrontPieces(m1, b + [m2]);
    PiecesAfterWord(a, tail);
    assert a + [m1] + b + [m2] == a + tail;
  }

  /** A mark-free word closed by a mark is a single piece. */
  lemma ClosedWordPieces(w: string, m: char)
    requires forall i :: 0 <= i < |w| ==> !IsMark(w[i])
    requires IsMark(m)
    ensures Pieces(w + [m]) == [w + [m]]
  {
    assert Pieces([m]) == [[m]];
    PiecesAfterWord(w, [m]);
  }

  /** A leading mark is a piece of its own. */
  lemma MarkFrontPieces(m: char, t: string)
    requires IsMark(m) && t != []
    ensures Pieces([m] + t) == [[m]] + Pieces(t)
  {
    var s := [m] + t;
    assert |s| > 1 && s[0] == m && s[..1] == [m] && s[1..] == t;
  }

  lemma TwoSentencesNoSpace(a: string, m1: char, b: string, m2: char)
    requires Plain(a) && Plain(b) && IsMark(m1) && IsMark(m2)
    ensures forall i :: 0 <= i < |a + [m1] + b + [m2]| ==> !IsSpace((a + [m1] + b + [m2])[i])
  {
    var s := a + [m1] + b + [m2];
    MarkNotSpace(m1);
    MarkNotSpace(m2);
    forall i | 0 <= i < |s| ensures !IsSpace(s[i]) {
      if i < |a| {
        assert s[i] == a[i];
      } else if i > |a| && i < |a| + 1 + |b| {
        assert s[i] == b[i - |a| - 1];
      }
    }
  }

  /** Text without whitespace is its own normalisation. */
  lemma NormaliseNoSpace(s: string)
    requires forall i :: 0 <= i < |s| ==> !IsSpace(s[i])
    ensures Trim(Collapse(s)) == s
  {
    CollapseNoSpace(s);
  }

  lemma TwoSentencesParts(a: string, m1: char, b: string, m2: char)
    requires Plain(a) && Plain(b) && IsMark(m1) && IsMark(m2)
    ensures Parts(a + [m1] + b + [m2]) == [a + [m1], b + [m2]]
  {
    TwoSentencesPieces(a, m1, b, m2);
    var ps := [a + [m1], b + [m2]];
    MarkNotSpace(m1);
    MarkNotSpace(m2);
    assert Trimmed(ps[0]) && Trimmed(ps[1]);
    assert TrimAll(ps) == ps;
    DropEmptyKeeps(ps);
  }

  /** Two plain sentences, each closed by a mark, split into exactly those two sentences. */
  lemma SplitTwoSentences(a: string, m1: char, b: string, m2: char)
    requires Plain(a) && Plain(b) && IsMark(m1) && IsMark(m2)
    ensures SplitSentences(a + [m1] + b + [m2]) == [a + [m1], b + [m2]]
  {
    TwoSentencesNoSpace(a, m1, b, m2);
    TwoSentencesParts(a, m1, b, m2);
    SplitSpaceless(a + [m1] + b + [m2]);
  }

  /** Text without whitespace and with at most five parts splits into exactly its parts. */
  lemma SplitSpaceless(text: string)
    requires text != [] && forall i :: 0 <= i < |text| ==> !IsSpace(text[i])
    requires |Parts(text)| <= MaxSentences
    ensures SplitSentences(text) == Parts(text)
  {
    NormaliseNoSpace(text);
    FallbackUnreachable(text);
    SentencesOfParts(text);
  }

  /** A normalised text with at most five parts has exactly its parts as sentences. */
  lemma SentencesOfParts(s: string)
    requires s != [] && 0 < |Parts(s)| <= MaxSentences
    ensures SentencesOf(s) == Parts(s)
  {
    var ps := Parts(s);
    assert ps[..|ps|] == ps;
  }

  lemma RedFlowerWords()
    ensures Plain("赤い花") && Plain("美しい") && IsMark('。')
  {
  }

  lemma RedFlowerText()
    ensures "赤い花" + ['。'] + "美しい" + ['。'] == "赤い花。美しい。"
    ensures "赤い花" + ['。'] == "赤い花。" && "美しい" + ['。'] == "美しい。"
  {
  }

  /** `"赤い花。美しい。"` splits into `["赤い花。", "美しい。"]`. */
  lemma SplitRedFlower()
    ensures SplitSentences("赤い花。美しい。") == ["赤い花。", "美しい。"]
  {
    RedFlowerWords();
    SplitTwoSentences("赤い花", '。', "美しい", '。');
    RedFlowerText();
  }
}
