/**
 * Whitespace handling shared by the parsers: ECMAScript's `\s` class,
 * `String.prototype.trim` and the `replace(/\s+/g, ' ')` collapse.
 */
module Text {

  /** The code points ECMAScript counts as WhiteSpace or LineTerminator (`\s`, `trim`). */
  predicate IsSpace(c: char) {
    var n := c as int;
    (0x09 <= n <= 0x0D) || n == 0x20 || n == 0xA0 || n == 0x1680
    || (0x2000 <= n <= 0x200A) || n == 0x2028 || n == 0x2029
    || n == 0x202F || n == 0x205F || n == 0x3000 || n == 0xFEFF
  }

  predicate AllSpaces(s: string) {
    forall i :: 0 <= i < |s| ==> IsSpace(s[i])
  }

  /** Neither end of `s` is whitespace: what `trim` produces. */
  predicate Trimmed(s: string) {
    s == [] || (!IsSpace(s[0]) && !IsSpace(s[|s| - 1]))
  }

  /** The non-whitespace characters of `s`, in order: text "modulo whitespace". */
  function StripSpaces(s: string): (r: string)
    ensures |r| <= |s|
    ensures forall i :: 0 <= i < |r| ==> !IsSpace(r[i])
  {
    if s == [] then [] else (if IsSpace(s[0]) then [] else [s[0]]) + StripSpaces(s[1..])
  }

  lemma {:induction false} StripSpacesAppend(a: string, b: string)
    ensures StripSpaces(a + b) == StripSpaces(a) + StripSpaces(b)
  {
    if a == [] {
      assert a + b == b;
    } else {
      assert (a + b)[1..] == a[1..] + b;
      StripSpacesAppend(a[1..], b);
    }
  }

  lemma {:induction false} StripSpacesEmpty(s: string)
    ensures StripSpaces(s) == [] <==> AllSpaces(s)
  {
    if s != [] {
      StripSpacesEmpty(s[1..]);
      assert AllSpaces(s) <==> IsSpace(s[0]) && AllSpaces(s[1..]) by {
        if IsSpace(s[0]) && AllSpaces(s[1..]) {
          forall i | 0 <= i < |s| ensures IsSpace(s[i]) {
            if i > 0 { assert s[i] == s[1..][i - 1]; }
          }
        }
        if AllSpaces(s) {
          forall i | 0 <= i < |s| - 1 ensures IsSpace(s[1..][i]) {
            assert s[1..][i] == s[i + 1];
          }
        }
      }
    }
  }

  /** `String.prototype.trimStart`: drops the leading whitespace. */
  function TrimStart(s: string): (r: string)
    ensures |r| <= |s| && r == s[|s| - |r|..]
    ensures r == [] || !IsSpace(r[0])
    ensures AllSpaces(s[..|s| - |r|])
    ensures s != [] && IsSpace(s[0]) ==> |r| < |s|
  {
    if s != [] && IsSpace(s[0]) then
      var r := TrimStart(s[1..]);
      TrimStartStep(s, r);
      r
    else
      s
  }

  /** One step of `trimStart`: a leading space joins the all-whitespace prefix. */
  lemma TrimStartStep(s: string, r: string)
    requires s != [] && IsSpace(s[0])
    requires |r| <= |s| - 1 && r == s[1..][|s| - 1 - |r|..] && AllSpaces(s[1..][..|s| - 1 - |r|])
    ensures r == s[|s| - |r|..] && AllSpaces(s[..|s| - |r|])
  {
    var k := |s| - |r|;
    assert s[1..][k - 1..] == s[k..];
    forall i | 0 <= i < k ensures IsSpace(s[..k][i]) {
      if i > 0 {
        assert s[..k][i] == s[1..][..k - 1][i - 1];
      }
    }
  }

  /** `String.prototype.trimEnd`: drops the trailing whitespace. */
  function TrimEnd(s: string): (r: string)
    ensures |r| <= |s| && r == s[..|r|]
    ensures r == [] || !IsSpace(r[|r| - 1])
    ensures AllSpaces(s[|r|..])
  {
    if s != [] && IsSpace(s[|s| - 1]) then
      var r := TrimEnd(s[..|s| - 1]);
      assert s[|r|..] == s[..|s| - 1][|r|..] + [s[|s| - 1]];
      r
    else
      s
  }

  /** `String.prototype.trim`. */
  function Trim(s: string): (r: string)
    ensures Trimmed(r)
    ensures |r| <= |s|
    ensures Trimmed(s) ==> r == s
  {
    TrimEnd(TrimStart(s))
  }

  /** Trimming removes only whitespace: the text modulo whitespace is unchanged. */
  lemma TrimKeepsText(s: string)
    ensures StripSpaces(Trim(s)) == StripSpaces(s)
  {
    TrimStartKeepsText(s);
    TrimEndKeepsText(TrimStart(s));
  }

  lemma {:induction false} TrimStartKeepsText(s: string)
    ensures StripSpaces(TrimStart(s)) == StripSpaces(s)
  {
    if s != [] && IsSpace(s[0]) {
      TrimStartKeepsText(s[1..]);
      assert StripSpaces(s) == [] + StripSpaces(s[1..]);
    }
  }

  lemma TrimEndKeepsText(t: string)
    ensures StripSpaces(TrimEnd(t)) == StripSpaces(t)
  {
    var r := TrimEnd(t);
    assert t == r + t[|r|..];
    StripSpacesAppend(r, t[|r|..]);
    StripSpacesEmpty(t[|r|..]);
  }

  /** `trim` yields the empty string exactly on all-whitespace input. */
  lemma TrimEmpty(s: string)
    ensures Trim(s) == [] <==> AllSpaces(s)
  {
    TrimKeepsText(s);
    StripSpacesEmpty(s);
    var r := Trim(s);
    if r != [] {
      assert StripSpaces(r) == [r[0]] + StripSpaces(r[1..]);
    }
  }

  /** `r` is the slice of `s` at `i` with nothing but whitespace on either side of it. */
  predicate MiddleOf(r: string, s: string, i: nat) {
    i + |r| <= |s| && r == s[i..i + |r|] && AllSpaces(s[..i]) && AllSpaces(s[i + |r|..])
  }

  /** `trim` cuts off exactly the leading and the trailing whitespace: what is left is the slice of `s`
      after its leading whitespace, with only whitespace after it. */
  lemma TrimSlice(s: string)
    ensures MiddleOf(Trim(s), s, |s| - |TrimStart(s)|)
  {
    var t := TrimStart(s);
    TrimEndSlice(s, |s| - |t|, t, TrimEnd(t));
  }

  /** Proof helper: trimming the end of a whitespace-prefixed suffix leaves a whitespace-bounded slice. */
  lemma TrimEndSlice(s: string, i: nat, t: string, r: string)
    requires i <= |s| && t == s[i..] && AllSpaces(s[..i])
    requires |r| <= |t| && r == t[..|r|] && AllSpaces(t[|r|..])
    ensures MiddleOf(r, s, i)
  {
    assert t[|r|..] == s[i + |r|..];
  }

  /** `trimStart` of text that ends in non-whitespace stops before the end, so text after it is kept whole. */
  lemma {:induction false} TrimStartAppend(a: string, b: string)
    requires a != [] && !IsSpace(a[|a| - 1])
    ensures TrimStart(a + b) == TrimStart(a) + b
  {
    if IsSpace(a[0]) {
      assert (a + b)[1..] == a[1..] + b;
      TrimStartAppend(a[1..], b);
    }
  }

  /** `replace(/\s+/g, ' ')`: every maximal run of whitespace becomes one space. */
  function Collapse(s: string): (r: string)
    ensures r == [] <==> s == []
    ensures s != [] ==> (IsSpace(r[0]) <==> IsSpace(s[0]))
    decreases |s|
  {
    if s == [] then []
    else if IsSpace(s[0]) then
      var rest := TrimStart(s);
      [' '] + Collapse(rest)
    else
      [s[0]] + Collapse(s[1..])
  }

  /** After the collapse every whitespace character is a plain space, and no two are adjacent. */
  lemma {:induction false} CollapseShape(s: string)
    ensures forall i :: 0 <= i < |Collapse(s)| && IsSpace(Collapse(s)[i]) ==> Collapse(s)[i] == ' '
    ensures forall i :: 0 <= i < |Collapse(s)| - 1 && IsSpace(Collapse(s)[i]) ==> !IsSpace(Collapse(s)[i + 1])
    decreases |s|
  {
    if s != [] {
      var rest := if IsSpace(s[0]) then TrimStart(s) else s[1..];
      CollapseShape(rest);
      var c := Collapse(rest);
      var r := Collapse(s);
      assert r == [if IsSpace(s[0]) then ' ' else s[0]] + c;
      assert forall i :: 0 < i < |r| ==> r[i] == c[i - 1];
    }
  }

  /** Collapsing whitespace keeps the text modulo whitespace. */
  lemma {:induction false} CollapseKeepsText(s: string)
    ensures StripSpaces(Collapse(s)) == StripSpaces(s)
    decreases |s|
  {
    if s == [] {
    } else if IsSpace(s[0]) {
      var rest := TrimStart(s);
      CollapseKeepsText(rest);
      TrimStartKeepsText(s);
      assert Collapse(s) == [' '] + Collapse(rest);
      StripSpacesAppend([' '], Collapse(rest));
    } else {
      CollapseKeepsText(s[1..]);
      assert Collapse(s) == [s[0]] + Collapse(s[1..]);
      StripSpacesAppend([s[0]], Collapse(s[1..]));
    }
  }

  /** A non-empty run of whitespace collapses to a single space. */
  lemma CollapseRun(sp: string)
    requires sp != [] && AllSpaces(sp)
    ensures Collapse(sp) == " "
  {
    assert TrimStart(sp) == [];
  }

  /** The collapse works piecewise across a cut that follows non-whitespace: no run spans it. */
  lemma {:induction false} CollapseAppend(a: string, b: string)
    requires a == [] || !IsSpace(a[|a| - 1])
    ensures Collapse(a + b) == Collapse(a) + Collapse(b)
    decreases |a|
  {
    if a == [] {
      assert a + b == b;
    } else if IsSpace(a[0]) {
      var t := TrimStart(a);
      TrimStartAppend(a, b);
      TrimStartEnd(a);
      CollapseAppend(t, b);
      CollapseSpaceStep(a, b, t);
    } else {
      CollapseAppend(a[1..], b);
      CollapseWordStep(a, b);
    }
  }

  /** A leading non-whitespace character stays in front. */
  lemma CollapseWordStep(a: string, b: string)
    requires a != [] && !IsSpace(a[0])
    requires Collapse(a[1..] + b) == Collapse(a[1..]) + Collapse(b)
    ensures Collapse(a + b) == Collapse(a) + Collapse(b)
  {
    TailAppend(a, b);
    CollapseWord(a + b);
    CollapseWord(a);
    ConcatAssoc([a[0]], Collapse(a[1..]), Collapse(b));
  }

  /** Proof helper: splitting the head off a concatenation. */
  lemma TailAppend(a: string, b: string)
    requires a != []
    ensures (a + b) != [] && (a + b)[0] == a[0] && (a + b)[1..] == a[1..] + b
  {
  }

  /** Proof helper: one unfolding of `Collapse` at a non-whitespace character. */
  lemma CollapseWord(x: string)
    requires x != [] && !IsSpace(x[0])
    ensures Collapse(x) == [x[0]] + Collapse(x[1..])
  {
  }

  /** A leading whitespace run becomes one space in front of the collapse of the rest. */
  lemma CollapseSpaceStep(a: string, b: string, t: string)
    requires a != [] && IsSpace(a[0]) && t == TrimStart(a)
    requires TrimStart(a + b) == t + b
    requires Collapse(t + b) == Collapse(t) + Collapse(b)
    ensures Collapse(a + b) == Collapse(a) + Collapse(b)
  {
    var ab := a + b;
    assert ab != [] && ab[0] == a[0];
    assert Collapse(ab) == [' '] + Collapse(t + b);
    assert Collapse(a) == [' '] + Collapse(t);
    ConcatAssoc([' '], Collapse(t), Collapse(b));
  }

  /** Proof helper: associativity of string concatenation. */
  lemma ConcatAssoc(x: string, y: string, z: string)
    ensures x + (y + z) == (x + y) + z
  {
  }

  /** Text ending in non-whitespace keeps that last character through `trimStart`. */
  lemma {:induction false} TrimStartEnd(a: string)
    requires a != [] && !IsSpace(a[|a| - 1])
    ensures TrimStart(a) != [] && TrimStart(a)[|TrimStart(a)| - 1] == a[|a| - 1]
  {
    if IsSpace(a[0]) {
      assert |a| > 1 && a[1..][|a| - 2] == a[|a| - 1];
      TrimStartEnd(a[1..]);
    }
  }

  /** The pieces of `ps` glued together in order. */
  function Concat(ps: seq<string>): string
  {
    if ps == [] then [] else ps[0] + Concat(ps[1..])
  }

  lemma {:induction false} ConcatAppend(a: seq<string>, b: seq<string>)
    ensures Concat(a + b) == Concat(a) + Concat(b)
  {
    if a == [] {
      assert a + b == b;
    } else {
      assert (a + b)[1..] == a[1..] + b;
      ConcatAppend(a[1..], b);
    }
  }

  /** `Array.prototype.join(sep)`. */
  function Join(ps: seq<string>, sep: string): (r: string)
    ensures |ps| == 1 ==> r == ps[0]
    ensures |ps| == 2 ==> r == ps[0] + sep + ps[1]
  {
    if ps == [] then [] else if |ps| == 1 then ps[0] else ps[0] + sep + Join(ps[1..], sep)
  }

  /** `ps.map(t => t.trim())`. */
  function TrimAll(ps: seq<string>): (r: seq<string>)
    ensures |r| == |ps|
    ensures forall k :: 0 <= k < |r| ==> r[k] == Trim(ps[k])
  {
    if ps == [] then [] else [Trim(ps[0])] + TrimAll(ps[1..])
  }

  /** `ps.filter(Boolean)`: drops the empty strings, keeping the order of the rest. */
  function DropEmpty(ps: seq<string>): (r: seq<string>)
    ensures |r| <= |ps|
    ensures forall k :: 0 <= k < |r| ==> r[k] != []
    ensures forall p :: p in r <==> p in ps && p != []
  {
    if ps == [] then []
    else if ps[0] == [] then DropEmpty(ps[1..])
    else [ps[0]] + DropEmpty(ps[1..])
  }

  /** Dropping empty strings leaves the glued text unchanged. */
  lemma {:induction false} DropEmptyConcat(ps: seq<string>)
    ensures Concat(DropEmpty(ps)) == Concat(ps)
  {
    if ps != [] {
      DropEmptyConcat(ps[1..]);
    }
  }

  /** `filter(Boolean)` keeps every non-empty string as often as it occurs. */
  lemma {:induction false} DropEmptyCounts(ps: seq<string>)
    ensures forall p :: p != [] ==> multiset(DropEmpty(ps))[p] == multiset(ps)[p]
  {
    if ps != [] {
      DropEmptyCounts(ps[1..]);
      assert ps == [ps[0]] + ps[1..];
    }
  }

  /** `filter(Boolean)` works piecewise, so it keeps the order of what it keeps. */
  lemma {:induction false} DropEmptyAppend(a: seq<string>, b: seq<string>)
    ensures DropEmpty(a + b) == DropEmpty(a) + DropEmpty(b)
  {
    if a == [] {
      assert a + b == b;
    } else {
      assert (a + b)[1..] == a[1..] + b;
      DropEmptyAppend(a[1..], b);
    }
  }

  lemma {:induction false} DropEmptyKeeps(ps: seq<string>)
    requires forall k :: 0 <= k < |ps| ==> ps[k] != []
    ensures DropEmpty(ps) == ps
  {
    if ps != [] {
      DropEmptyKeeps(ps[1..]);
    }
  }

  /** Trimming every piece leaves the glued text unchanged modulo whitespace. */
  lemma {:induction false} TrimAllKeepsText(ps: seq<string>)
    ensures StripSpaces(Concat(TrimAll(ps))) == StripSpaces(Concat(ps))
  {
    if ps != [] {
      TrimAllKeepsText(ps[1..]);
      TrimKeepsText(ps[0]);
      assert TrimAll(ps) == [Trim(ps[0])] + TrimAll(ps[1..]);
      StripSpacesAppend(Trim(ps[0]), Concat(TrimAll(ps[1..])));
      StripSpacesAppend(ps[0], Concat(ps[1..]));
    }
  }
}
