/** Whitespace tokenizing and one-character separator splitting of strings. */
module Text {

  /** Go's `unicode.IsSpace`: the code points that carry the Unicode White_Space property. */
  predicate IsSpace(c: char) {
    var n := c as int;
    (9 <= n <= 13) || n == 0x20 || n == 0x85 || n == 0xA0 || n == 0x1680
    || (0x2000 <= n <= 0x200A) || n == 0x2028 || n == 0x2029 || n == 0x202F
    || n == 0x205F || n == 0x3000
  }

  /** A word: a non-empty string with no whitespace in it. */
  predicate IsWord(w: string) {
    |w| > 0 && forall i :: 0 <= i < |w| ==> !IsSpace(w[i])
  }

  /** Every element is a word. */
  predicate AllWords(ws: seq<string>) {
    forall i :: 0 <= i < |ws| ==> IsWord(ws[i])
  }

  /** A blank string holds nothing but whitespace (or nothing at all). */
  predicate IsBlank(s: string) {
    forall i :: 0 <= i < |s| ==> IsSpace(s[i])
  }

  /** `s` with every whitespace character removed. */
  function Squeeze(s: string): string {
    if s == [] then [] else (if IsSpace(s[0]) then [] else [s[0]]) + Squeeze(s[1..])
  }

  /** The concatenation of a sequence of strings. */
  function Concat(ws: seq<string>): string {
    if ws == [] then [] else ws[0] + Concat(ws[1..])
  }

  /** Words written out with one space between neighbours. */
  function Unwords(ws: seq<string>): string {
    if ws == [] then [] else if |ws| == 1 then ws[0] else ws[0] + " " + Unwords(ws[1..])
  }

  /** The length of the longest prefix of `s` that holds no whitespace. */
  function WordLength(s: string): (n: nat)
    ensures n <= |s|
    ensures forall i :: 0 <= i < n ==> !IsSpace(s[i])
    ensures n < |s| ==> IsSpace(s[n])
  {
    if s == [] || IsSpace(s[0]) then 0 else 1 + WordLength(s[1..])
  }

  /**
   * The maximal runs of non-whitespace characters of `s`, left to right
   * (Go's `strings.Fields`): only words, none when `s` is blank, and no
   * character other than whitespace lost.
   */
  function Fields(s: string): (r: seq<string>)
    ensures AllWords(r)
    ensures r == [] <==> IsBlank(s)
    ensures Concat(r) == Squeeze(s)
    decreases |s|
  {
    if s == [] then []
    else if IsSpace(s[0]) then
      assert s == [s[0]] + s[1..];
      Fields(s[1..])
    else
      var n := WordLength(s);
      assert s == s[..n] + s[n..];
      SqueezeAppend(s[..n], s[n..]);
      SqueezeWord(s[..n]);
      [s[..n]] + Fields(s[n..])
  }

  lemma {:induction false} SqueezeAppend(a: string, b: string)
    ensures Squeeze(a + b) == Squeeze(a) + Squeeze(b)
  {
    if a == [] {
      assert a + b == b;
    } else {
      assert (a + b)[1..] == a[1..] + b;
      SqueezeAppend(a[1..], b);
    }
  }

  lemma {:induction false} SqueezeWord(w: string)
    requires forall i :: 0 <= i < |w| ==> !IsSpace(w[i])
    ensures Squeeze(w) == w
  {
    if w != [] {
      SqueezeWord(w[1..]);
    }
  }

  lemma {:induction false} WordLengthOfWord(w: string, t: string)
    requires forall i :: 0 <= i < |w| ==> !IsSpace(w[i])
    requires t == [] || IsSpace(t[0])
    ensures WordLength(w + t) == |w|
  {
    if w == [] {
      assert w + t == t;
    } else {
      assert (w + t)[1..] == w[1..] + t;
      WordLengthOfWord(w[1..], t);
    }
  }

  /** Tokenizing words that were written out with single spaces gives the words back. */
  lemma {:induction false} FieldsUnwords(ws: seq<string>)
    requires AllWords(ws)
    ensures Fields(Unwords(ws)) == ws
  {
    if |ws| == 1 {
      var w := ws[0];
      WordLengthOfWord(w, []);
      assert w + [] == w;
      FieldsWordFirst(w);
      assert w[..|w|] == w;
      assert w[|w|..] == [];
    } else if |ws| > 1 {
      var w, rest := ws[0], Unwords(ws[1..]);
      var s := w + (" " + rest);
      assert Unwords(ws) == s;
      WordLengthOfWord(w, " " + rest);
      FieldsWordFirst(s);
      assert s[..|w|] == w;
      assert s[|w|..] == " " + rest;
      FieldsSkipsSpaces(" ", rest);
      FieldsUnwords(ws[1..]);
      assert ws == [w] + ws[1..];
    }
  }

  /** Leading whitespace does not change the tokens. */
  lemma {:induction false} FieldsSkipsSpaces(sp: string, s: string)
    requires IsBlank(sp)
    ensures Fields(sp + s) == Fields(s)
  {
    if sp != [] {
      assert (sp + s)[1..] == sp[1..] + s;
      FieldsSkipsSpaces(sp[1..], s);
    } else {
      assert sp + s == s;
    }
  }

  /**
   * Words woven between gaps: `gaps[0] + ws[0] + gaps[1] + ... + ws[n-1] + gaps[n]`.
   */
  function Weave(ws: seq<string>, gaps: seq<string>): string
    requires |gaps| == |ws| + 1
  {
    if ws == [] then gaps[0] else gaps[0] + ws[0] + Weave(ws[1..], gaps[1..])
  }

  /**
   * Gaps that separate `n` words: all blank, and those between two words
   * non-empty; the gaps at both ends may be empty.
   */
  predicate Separated(gaps: seq<string>, n: nat) {
    && |gaps| == n + 1
    && (forall i :: 0 <= i < |gaps| ==> IsBlank(gaps[i]))
    && (forall i :: 0 < i < n ==> gaps[i] != [])
  }

  /**
   * Tokenizing words separated by runs of whitespace of any length, with
   * whitespace of any length at both ends, gives the words back.
   */
  lemma {:induction false} FieldsWeave(ws: seq<string>, gaps: seq<string>)
    requires AllWords(ws)
    requires Separated(gaps, |ws|)
    ensures Fields(Weave(ws, gaps)) == ws
  {
    if ws == [] {
      FieldsSkipsSpaces(gaps[0], []);
      assert gaps[0] + [] == gaps[0];
    } else {
      var w, rest := ws[0], Weave(ws[1..], gaps[1..]);
      assert Weave(ws, gaps) == gaps[0] + (w + rest);
      FieldsSkipsSpaces(gaps[0], w + rest);
      if ws[1..] != [] {
        assert gaps[1] != [] && rest[0] == gaps[1][0];
      }
      WordLengthOfWord(w, rest);
      assert (w + rest)[..|w|] == w;
      assert (w + rest)[|w|..] == rest;
      FieldsWeave(ws[1..], gaps[1..]);
      assert ws == [w] + ws[1..];
    }
  }

  /** Every string is its tokens woven between separating runs of whitespace. */
  lemma {:induction false} FieldsWoven(s: string)
    ensures exists gaps :: Separated(gaps, |Fields(s)|) && s == Weave(Fields(s), gaps)
    decreases |s|
  {
    if s == [] {
      assert Fields(s) == [];
      assert Separated([[]], |Fields(s)|) && s == Weave(Fields(s), [[]]);
    } else if IsSpace(s[0]) {
      FieldsWoven(s[1..]);
      var gaps' :| Separated(gaps', |Fields(s[1..])|) && s[1..] == Weave(Fields(s[1..]), gaps');
      WovenAfterSpace(s, gaps');
    } else {
      var n := WordLength(s);
      FieldsWoven(s[n..]);
      var gaps' :| Separated(gaps', |Fields(s[n..])|) && s[n..] == Weave(Fields(s[n..]), gaps');
      WovenAfterWord(s, n, gaps');
    }
  }

  /** A leading whitespace character joins the first gap. */
  lemma WovenAfterSpace(s: string, gaps': seq<string>)
    requires s != [] && IsSpace(s[0])
    requires Separated(gaps', |Fields(s[1..])|) && s[1..] == Weave(Fields(s[1..]), gaps')
    ensures Separated([[s[0]] + gaps'[0]] + gaps'[1..], |Fields(s)|)
    ensures s == Weave(Fields(s), [[s[0]] + gaps'[0]] + gaps'[1..])
  {
    assert Fields(s) == Fields(s[1..]);
    SeparatedWiden(s[0], gaps', |Fields(s)|);
    WeaveWiden([s[0]], Fields(s[1..]), gaps');
    assert s == [s[0]] + s[1..];
  }

  /** Whitespace added to the first gap keeps the gaps separating. */
  lemma SeparatedWiden(c: char, gaps: seq<string>, m: nat)
    requires IsSpace(c) && Separated(gaps, m)
    ensures Separated([[c] + gaps[0]] + gaps[1..], m)
  {
    var g0 := [c] + gaps[0];
    forall i | 0 < i < |g0|
      ensures IsSpace(g0[i])
    {
      assert g0[i] == gaps[0][i - 1];
    }
    var g := [g0] + gaps[1..];
    assert forall i :: 0 < i < |g| ==> g[i] == gaps[i];
  }

  /** A leading word is the first token, after an empty first gap. */
  lemma WovenAfterWord(s: string, n: nat, gaps': seq<string>)
    requires s != [] && !IsSpace(s[0]) && n == WordLength(s)
    requires Separated(gaps', |Fields(s[n..])|) && s[n..] == Weave(Fields(s[n..]), gaps')
    ensures Separated([[]] + gaps', |Fields(s)|)
    ensures s == Weave(Fields(s), [[]] + gaps')
  {
    var w, t, r := s[..n], s[n..], Fields(s[n..]);
    FieldsWordFirst(s);
    if r != [] {
      FirstGapNonEmpty(t, r, gaps');
    }
    SeparatedCons(gaps', |r|);
    WeaveCons(w, r, gaps');
    assert s == w + t;
  }

  /** A string starting with a word tokenizes to that word, then the tokens of the rest. */
  lemma FieldsWordFirst(s: string)
    requires s != [] && !IsSpace(s[0])
    ensures Fields(s) == [s[..WordLength(s)]] + Fields(s[WordLength(s)..])
  {
  }

  /** Woven text whose first gap is empty starts with its first word, so not with whitespace. */
  lemma FirstGapNonEmpty(t: string, r: seq<string>, gaps: seq<string>)
    requires |gaps| == |r| + 1 && t == Weave(r, gaps)
    requires r != [] && IsWord(r[0])
    ensures gaps[0] == [] ==> t != [] && !IsSpace(t[0])
  {
    if gaps[0] == [] {
      var w, rest := r[0], Weave(r[1..], gaps[1..]);
      assert t == gaps[0] + w + rest;
      assert gaps[0] + w == w;
      assert t[0] == w[0];
    }
  }

  /** An empty gap in front of gaps that separate `m` words separates one word more. */
  lemma SeparatedCons(gaps: seq<string>, m: nat)
    requires Separated(gaps, m) && (m > 0 ==> gaps[0] != [])
    ensures Separated([[]] + gaps, m + 1)
  {
    var g := [[]] + gaps;
    assert forall i :: 0 < i < |g| ==> g[i] == gaps[i - 1];
  }

  /** A word after an empty first gap. */
  lemma WeaveCons(w: string, ws: seq<string>, gaps: seq<string>)
    requires |gaps| == |ws| + 1
    ensures Weave([w] + ws, [[]] + gaps) == w + Weave(ws, gaps)
  {
    assert ([w] + ws)[1..] == ws;
    assert ([[]] + gaps)[1..] == gaps;
  }

  /** Widening the first gap widens the woven string at its front. */
  lemma WeaveWiden(p: string, ws: seq<string>, gaps: seq<string>)
    requires |gaps| == |ws| + 1
    ensures Weave(ws, [p + gaps[0]] + gaps[1..]) == p + Weave(ws, gaps)
  {
    var gaps2 := [p + gaps[0]] + gaps[1..];
    assert gaps2[1..] == gaps[1..];
  }

  /** Pieces written out with `sep` between neighbours. */
  function Join(ps: seq<string>, sep: char): string
    requires |ps| > 0
  {
    if |ps| == 1 then ps[0] else ps[0] + [sep] + Join(ps[1..], sep)
  }

  /**
   * Go's `strings.Split(s, sep)` for a one-character separator: the pieces
   * between separators, empty pieces kept; joining them restores `s`.
   */
  function Split(s: string, sep: char): (r: seq<string>)
    ensures |r| > 0
    ensures forall i :: 0 <= i < |r| ==> sep !in r[i]
    ensures Join(r, sep) == s
  {
    if s == [] then [""]
    else
      var rest := Split(s[1..], sep);
      if s[0] == sep then
        assert ([""] + rest)[1..] == rest;
        [""] + rest
      else
        var r := [[s[0]] + rest[0]] + rest[1..];
        assert |rest| > 1 ==> r[1..] == rest[1..];
        r
  }

  lemma {:induction false} SplitPiece(p: string, t: string, sep: char)
    requires sep !in p
    ensures Split(p + [sep] + t, sep) == [p] + Split(t, sep)
  {
    var s := p + [sep] + t;
    if p == [] {
      assert s == [sep] + t;
      assert s[1..] == t;
    } else {
      assert s[1..] == p[1..] + [sep] + t;
      SplitPiece(p[1..], t, sep);
      assert [s[0]] + p[1..] == p;
    }
  }

  lemma {:induction false} SplitWhole(p: string, sep: char)
    requires sep !in p
    ensures Split(p, sep) == [p]
  {
    if p != [] {
      SplitWhole(p[1..], sep);
      assert [p[0]] + p[1..] == p;
    }
  }

  /** Splitting pieces that were joined with a separator none of them holds gives the pieces back. */
  lemma {:induction false} SplitJoin(ps: seq<string>, sep: char)
    requires |ps| > 0
    requires forall i :: 0 <= i < |ps| ==> sep !in ps[i]
    ensures Split(Join(ps, sep), sep) == ps
  {
    if |ps| == 1 {
      SplitWhole(ps[0], sep);
    } else {
      SplitPiece(ps[0], Join(ps[1..], sep), sep);
      SplitJoin(ps[1..], sep);
      assert ps == [ps[0]] + ps[1..];
    }
  }

  /** The index of the first `c` in `s`, or `|s|` when there is none. */
  function IndexOf(s: string, c: char): (i: nat)
    ensures i <= |s|
    ensures i < |s| ==> s[i] == c
    ensures forall j :: 0 <= j < i ==> s[j] != c
  {
    if s == [] || s[0] == c then 0 else 1 + IndexOf(s[1..], c)
  }
}
