/**
 * The policy-header annotation parser of the `rego` package: header comment
 * lines (comment markers already removed) in, the `Matchers` that say which
 * Kubernetes resources a policy applies to out.
 */
module Rego {
  import opened Wrappers
  import opened Text
  import opened Order

  /** Why parsing a header failed. */
  datatype ParseError =
    | TagMismatch(tag: string)              // the line does not carry the tag asked for
    | NoArguments(tag: string)              // the tag is followed by nothing but whitespace
    | InvalidExpressionArity(line: string)  // a `@matchExpression` line without 2 or 3 arguments

  /** The kinds a policy applies to within one API group; `""` is the core group. */
  datatype KindMatcher = KindMatcher(APIGroup: string, Kinds: seq<string>)

  type KindMatchers = seq<KindMatcher>

  type MatchLabelsMatcher = map<string, string>

  datatype MatchExpressionMatcher = MatchExpressionMatcher(Key: string, Operator: string, Values: seq<string>)

  /** Everything parsed from one policy's header. */
  datatype Matchers = Matchers(
    KindMatchers: KindMatchers,
    MatchLabelsMatcher: MatchLabelsMatcher,
    MatchExpressionsMatcher: seq<MatchExpressionMatcher>)

  /** Go's zero value of `Matchers`: every field empty. */
  const NoMatchers := Matchers([], map[], [])

  const KindsTag := "@kinds"
  const MatchLabelsTag := "@matchlabels"
  const MatchExpressionTag := "@matchExpression"

  // ---------------------------------------------------------------------------
  // Tag tokenizer

  /** `comment` starts with `tag`, and the tag ends there: whitespace or the end of the line follows. */
  predicate HasTag(tag: string, comment: string) {
    tag <= comment && (|comment| == |tag| || IsSpace(comment[|tag|]))
  }

  /** The empty tag is carried by exactly the lines that are empty or start with whitespace. */
  lemma EmptyTag(comment: string)
    ensures HasTag("", comment) <==> comment == [] || IsSpace(comment[0])
  {
  }

  /** A line carries at most one of the three annotation tags, so it feeds at most one builder. */
  lemma TagsExclusive(comment: string)
    ensures HasTag(KindsTag, comment) ==> !HasTag(MatchLabelsTag, comment) && !HasTag(MatchExpressionTag, comment)
    ensures HasTag(MatchLabelsTag, comment) ==> !HasTag(MatchExpressionTag, comment)
  {
    if HasTag(KindsTag, comment) {
      assert comment[1] == KindsTag[1];
    }
    if HasTag(MatchLabelsTag, comment) {
      assert comment[6] == MatchLabelsTag[6];
    }
  }

  /** `comment` carries `tag` but nothing after it. */
  predicate Bare(tag: string, comment: string) {
    HasTag(tag, comment) && IsBlank(comment[|tag|..])
  }

  /** `t` is one of the arguments that `comment` gives `tag`. */
  predicate ArgOf(tag: string, comment: string, t: string) {
    HasTag(tag, comment) && t in Fields(comment[|tag|..])
  }

  /** Some line of `comments` carries `tag` with no arguments. */
  predicate AnyBare(tag: string, comments: seq<string>) {
    exists i :: 0 <= i < |comments| && Bare(tag, comments[i])
  }

  /** Some line of `comments` gives `tag` the argument `t`. */
  predicate Given(tag: string, comments: seq<string>, t: string) {
    exists i :: 0 <= i < |comments| && ArgOf(tag, comments[i], t)
  }

  /**
   * `getStringListMatcher`: the whitespace-separated arguments following
   * `tag` in `comment`. Fails when the comment does not carry the tag or the
   * tag has no arguments; otherwise the arguments are words, and what
   * follows the tag is exactly those words with runs of whitespace between
   * them (so they are the maximal runs of non-whitespace, see `FieldsWeave`).
   */
  function GetStringListMatcher(tag: string, comment: string): (r: Result<seq<string>, ParseError>)
    ensures r.Err? <==> !HasTag(tag, comment) || IsBlank(comment[|tag|..])
    ensures r.Err? ==> r.error == (if HasTag(tag, comment) then NoArguments(tag) else TagMismatch(tag))
    ensures r.Ok? ==> |r.value| > 0 && AllWords(r.value)
    ensures r.Ok? ==> exists gaps :: Separated(gaps, |r.value|) && comment[|tag|..] == Weave(r.value, gaps)
  {
    if !HasTag(tag, comment) then Err(TagMismatch(tag))
    else
      var args := Fields(comment[|tag|..]);
      FieldsWoven(comment[|tag|..]);
      if args == [] then Err(NoArguments(tag)) else Ok(args)
  }

  /**
   * A tag followed by words with runs of whitespace before, between and
   * after them yields exactly those words.
   */
  lemma GetStringListMatcherWeave(tag: string, ws: seq<string>, gaps: seq<string>)
    requires |ws| > 0 && AllWords(ws) && Separated(gaps, |ws|) && gaps[0] != []
    ensures GetStringListMatcher(tag, tag + Weave(ws, gaps)) == Ok(ws)
  {
    var comment := tag + Weave(ws, gaps);
    assert Weave(ws, gaps) == gaps[0] + ws[0] + Weave(ws[1..], gaps[1..]);
    assert comment[..|tag|] == tag;
    assert comment[|tag|] == gaps[0][0];
    assert comment[|tag|..] == Weave(ws, gaps);
    FieldsWeave(ws, gaps);
  }

  /** The annotation line made of `tag` followed by the words `ws`, one space apart. */
  function AnnotationLine(tag: string, ws: seq<string>): string {
    tag + " " + Unwords(ws)
  }

  /** A tag followed by words written out with single spaces yields exactly those words. */
  lemma GetStringListMatcherRoundTrip(tag: string, ws: seq<string>)
    requires |ws| > 0 && AllWords(ws)
    ensures GetStringListMatcher(tag, AnnotationLine(tag, ws)) == Ok(ws)
  {
    AnnotationLineFields(tag, ws);
  }

  /** An annotation line carries its tag, and what follows the tag tokenizes to its words. */
  lemma AnnotationLineFields(tag: string, ws: seq<string>)
    requires AllWords(ws)
    ensures HasTag(tag, AnnotationLine(tag, ws))
    ensures Fields(AnnotationLine(tag, ws)[|tag|..]) == ws
  {
    var words := Unwords(ws);
    TagThenWords(tag, words);
    FieldsUnwords(ws);
    FieldsSkipsSpaces(" ", words);
  }

  lemma TagThenWords(tag: string, words: string)
    ensures HasTag(tag, tag + " " + words)
    ensures (tag + " " + words)[|tag|..] == " " + words
  {
    var comment := tag + " " + words;
    assert comment[..|tag|] == tag;
    assert comment[|tag|] == ' ';
  }

  /**
   * The arguments of every line carrying `tag`, in line order; lines without
   * the tag are skipped. Fails exactly when some line carries the tag bare.
   */
  function TaggedArgs(tag: string, comments: seq<string>): (r: Result<seq<string>, ParseError>)
    ensures r.Err? <==> AnyBare(tag, comments)
    ensures r.Err? ==> r.error == NoArguments(tag)
    ensures r.Ok? ==> forall t :: t in r.value <==> Given(tag, comments, t)
    decreases |comments|
  {
    if comments == [] then Ok([])
    else
      var init := comments[..|comments| - 1];
      var last := comments[|comments| - 1];
      var before :- TaggedArgs(tag, init);
      if HasTag(tag, last) then
        var args :- GetStringListMatcher(tag, last);
        Ok(before + args)
      else
        Ok(before)
  }

  /** A single line yields its arguments when it carries the tag, and nothing when it does not. */
  lemma TaggedArgsOne(tag: string, comment: string)
    ensures TaggedArgs(tag, [comment]) ==
      if HasTag(tag, comment) then GetStringListMatcher(tag, comment) else Ok([])
  {
    assert [comment][..0] == [];
    var r := GetStringListMatcher(tag, comment);
    if r.Ok? {
      assert [] + r.value == r.value;
    }
  }

  /** Tagged arguments of two runs of lines: those of the first run, then those of the second. */
  lemma {:induction false} TaggedArgsAppend(tag: string, a: seq<string>, b: seq<string>)
    ensures TaggedArgs(tag, a + b) ==
      if TaggedArgs(tag, a).Err? then TaggedArgs(tag, a)
      else if TaggedArgs(tag, b).Err? then TaggedArgs(tag, b)
      else Ok(TaggedArgs(tag, a).value + TaggedArgs(tag, b).value)
  {
    if b == [] {
      assert a + b == a;
      assert TaggedArgs(tag, b) == Ok([]);
      if TaggedArgs(tag, a).Ok? {
        assert TaggedArgs(tag, a).value + [] == TaggedArgs(tag, a).value;
      }
    } else {
      var b' := b[..|b| - 1];
      assert (a + b)[..|a + b| - 1] == a + b';
      assert (a + b)[|a + b| - 1] == b[|b| - 1];
      TaggedArgsAppend(tag, a, b');
      if TaggedArgs(tag, a).Ok? && TaggedArgs(tag, b').Ok? {
        var last := b[|b| - 1];
        if HasTag(tag, last) && GetStringListMatcher(tag, last).Ok? {
          var x, y, z := TaggedArgs(tag, a).value, TaggedArgs(tag, b').value, GetStringListMatcher(tag, last).value;
          assert x + y + z == x + (y + z);
        }
      }
    }
  }

  // ---------------------------------------------------------------------------
  // @kinds

  /** The API group as written in an annotation: `core` names the core group `""`. */
  function NormalizeGroup(group: string): (g: string)
    ensures g == "" <==> group == "" || group == "core"
    ensures group != "core" ==> g == group
  {
    if group == "core" then "" else group
  }

  /**
   * One `@kinds` argument as (API group, kind): split at the first `/`; a
   * token without `/` is a kind of the core group.
   */
  function KindToken(token: string): (string, string) {
    var i := IndexOf(token, '/');
    if i == |token| then ("", token) else (NormalizeGroup(token[..i]), token[i + 1..])
  }

  /** `group/Kind` reads back as its (normalized) group and its kind, whatever the kind holds. */
  lemma KindTokenOf(group: string, kind: string)
    requires '/' !in group
    ensures KindToken(group + "/" + kind) == (NormalizeGroup(group), kind)
  {
    var t := group + "/" + kind;
    assert t[|group|] == '/';
    assert forall j :: 0 <= j < |group| ==> t[j] == group[j];
    assert t[..|group|] == group;
    assert t[|group| + 1..] == kind;
  }

  /** A token without `/` is a kind in the core group. */
  lemma KindTokenBare(token: string)
    requires '/' !in token
    ensures KindToken(token) == ("", token)
  {
  }

  /**
   * Canonical kind matchers: every entry has kinds, strictly ascending (so
   * without duplicates), and the groups are strictly ascending (so one
   * entry per group, and the core group `""`, the least string, first).
   */
  predicate WellFormed(ms: KindMatchers) {
    && (forall i :: 0 <= i < |ms| ==> |ms[i].Kinds| > 0 && StrictlySorted(ms[i].Kinds))
    && (forall i, j :: 0 <= i < j < |ms| ==> Less(ms[i].APIGroup, ms[j].APIGroup))
  }

  /** Some entry of `ms` lists `kind` under `group`. */
  predicate HasKind(ms: KindMatchers, group: string, kind: string) {
    ms != [] && ((ms[0].APIGroup == group && kind in ms[0].Kinds) || HasKind(ms[1..], group, kind))
  }

  /** Every group of `ms` sorts after `x`. */
  predicate Above(x: string, ms: KindMatchers) {
    forall i :: 0 <= i < |ms| ==> Less(x, ms[i].APIGroup)
  }

  lemma {:induction false} HasKindAbove(x: string, ms: KindMatchers, group: string, kind: string)
    requires Above(x, ms) && HasKind(ms, group, kind)
    ensures Less(x, group)
  {
    if !(ms[0].APIGroup == group && kind in ms[0].Kinds) {
      HasKindAbove(x, ms[1..], group, kind);
    }
  }

  /** The pairs of an entry followed by more entries. */
  lemma HasKindCons(m: KindMatcher, ms: KindMatchers, g: string, k: string)
    ensures HasKind([m] + ms, g, k) <==> (m.APIGroup == g && k in m.Kinds) || HasKind(ms, g, k)
  {
    assert ([m] + ms)[1..] == ms;
  }

  /** Adding a kind to the first entry, which already holds its group. */
  lemma AddKindHere(ms: KindMatchers, kind: string)
    requires WellFormed(ms) && ms != []
    ensures var r := [ms[0].(Kinds := Insert(ms[0].Kinds, kind))] + ms[1..];
      && WellFormed(r)
      && (forall g, k :: HasKind(r, g, k) <==> HasKind(ms, g, k) || (g == ms[0].APIGroup && k == kind))
      && forall x :: Above(x, ms) ==> Above(x, r)
  {
    var r := [ms[0].(Kinds := Insert(ms[0].Kinds, kind))] + ms[1..];
    forall g, k ensures HasKind(r, g, k) <==> HasKind(ms, g, k) || (g == ms[0].APIGroup && k == kind) {
      HasKindCons(r[0], ms[1..], g, k);
      HasKindCons(ms[0], ms[1..], g, k);
      assert [ms[0]] + ms[1..] == ms;
    }
  }

  /** Adding a pair whose group sorts before every group of `ms`. */
  lemma AddKindFront(ms: KindMatchers, group: string, kind: string)
    requires WellFormed(ms) && ms != [] && Less(group, ms[0].APIGroup)
    ensures var r := [KindMatcher(group, [kind])] + ms;
      && WellFormed(r)
      && (forall g, k :: HasKind(r, g, k) <==> HasKind(ms, g, k) || (g == group && k == kind))
      && forall x :: Above(x, ms) && Less(x, group) ==> Above(x, r)
  {
    var r := [KindMatcher(group, [kind])] + ms;
    forall j | 0 < j < |ms| ensures Less(group, ms[j].APIGroup) {
      LessTransitive(group, ms[0].APIGroup, ms[j].APIGroup);
    }
    forall g, k ensures HasKind(r, g, k) <==> HasKind(ms, g, k) || (g == group && k == kind) {
      HasKindCons(r[0], ms, g, k);
    }
  }

  /** A canonical list splits into its first entry, above which the rest all sort, and a canonical rest. */
  lemma WellFormedTail(ms: KindMatchers)
    requires WellFormed(ms) && ms != []
    ensures WellFormed(ms[1..]) && Above(ms[0].APIGroup, ms[1..])
    ensures |ms[0].Kinds| > 0 && StrictlySorted(ms[0].Kinds)
  {
  }

  /** An entry in front of a canonical list whose groups all sort after its own keeps it canonical. */
  lemma WellFormedCons(m: KindMatcher, rest: KindMatchers)
    requires |m.Kinds| > 0 && StrictlySorted(m.Kinds)
    requires WellFormed(rest) && Above(m.APIGroup, rest)
    ensures WellFormed([m] + rest)
  {
    var r := [m] + rest;
    forall i, j | 0 <= i < j < |r|
      ensures Less(r[i].APIGroup, r[j].APIGroup)
    {
      if i > 0 {
        assert r[i] == rest[i - 1] && r[j] == rest[j - 1];
      } else {
        assert r[j] == rest[j - 1];
      }
    }
  }

  /** Adding a pair whose group sorts after the first group of `ms`, into the rest. */
  lemma AddKindLater(ms: KindMatchers, group: string, kind: string, rest: KindMatchers)
    requires WellFormed(ms) && ms != [] && Less(ms[0].APIGroup, group)
    requires WellFormed(rest)
    requires forall g, k :: HasKind(rest, g, k) <==> HasKind(ms[1..], g, k) || (g == group && k == kind)
    requires forall x :: Above(x, ms[1..]) && Less(x, group) ==> Above(x, rest)
    ensures var r := [ms[0]] + rest;
      && WellFormed(r)
      && (forall g, k :: HasKind(r, g, k) <==> HasKind(ms, g, k) || (g == group && k == kind))
      && forall x :: Above(x, ms) && Less(x, group) ==> Above(x, r)
  {
    var r := [ms[0]] + rest;
    WellFormedTail(ms);
    WellFormedCons(ms[0], rest);
    forall g, k ensures HasKind(r, g, k) <==> HasKind(ms, g, k) || (g == group && k == kind) {
      HasKindCons(ms[0], rest, g, k);
      HasKindCons(ms[0], ms[1..], g, k);
      assert [ms[0]] + ms[1..] == ms;
    }
    forall x | Above(x, ms) && Less(x, group) ensures Above(x, r) {
      assert Above(x, ms[1..]);
    }
  }

  /** Adds one (group, kind) pair to canonical kind matchers, keeping them canonical. */
  function AddKind(ms: KindMatchers, group: string, kind: string): (r: KindMatchers)
    requires WellFormed(ms)
    ensures WellFormed(r)
    ensures forall g, k :: HasKind(r, g, k) <==> HasKind(ms, g, k) || (g == group && k == kind)
    ensures forall x :: Above(x, ms) && Less(x, group) ==> Above(x, r)
  {
    if ms == [] then
      [KindMatcher(group, [kind])]
    else if ms[0].APIGroup == group then
      AddKindHere(ms, kind);
      [ms[0].(Kinds := Insert(ms[0].Kinds, kind))] + ms[1..]
    else if Less(group, ms[0].APIGroup) then
      AddKindFront(ms, group, kind);
      [KindMatcher(group, [kind])] + ms
    else
      LessTotal(group, ms[0].APIGroup);
      var rest := AddKind(ms[1..], group, kind);
      AddKindLater(ms, group, kind, rest);
      [ms[0]] + rest
  }

  /**
   * The kind matchers of a run of `@kinds` arguments, merged token by token:
   * canonical, and listing exactly the (group, kind) pairs of the tokens.
   */
  function KindMatchersOf(tokens: seq<string>): (r: KindMatchers)
    ensures WellFormed(r)
    ensures forall g, k :: HasKind(r, g, k) <==> exists t :: t in tokens && KindToken(t) == (g, k)
  {
    if tokens == [] then []
    else
      var init := tokens[..|tokens| - 1];
      var last := tokens[|tokens| - 1];
      assert tokens == init + [last];
      var (g, k) := KindToken(last);
      AddKind(KindMatchersOf(init), g, k)
  }

  /** Canonical kind matchers are determined by the pairs they list. */
  lemma {:induction false} KindMatchersCanonical(a: KindMatchers, b: KindMatchers)
    requires WellFormed(a) && WellFormed(b)
    requires forall g, k :: HasKind(a, g, k) <==> HasKind(b, g, k)
    ensures a == b
  {
    if a != [] {
      assert HasKind(a, a[0].APIGroup, a[0].Kinds[0]);
    }
    if b != [] {
      assert HasKind(b, b[0].APIGroup, b[0].Kinds[0]);
    }
    if a != [] && b != [] {
      var ga, gb := a[0].APIGroup, b[0].APIGroup;
      assert Above(ga, a[1..]);
      assert Above(gb, b[1..]);
      if ga != gb {
        assert HasKind(b, ga, a[0].Kinds[0]);
        HasKindAbove(gb, b[1..], ga, a[0].Kinds[0]);
        assert HasKind(a, gb, b[0].Kinds[0]);
        HasKindAbove(ga, a[1..], gb, b[0].Kinds[0]);
        LessAsymmetric(ga, gb);
      }
      forall k
        ensures k in a[0].Kinds <==> k in b[0].Kinds
      {
        LessIrreflexive(ga);
        if k in a[0].Kinds {
          assert HasKind(b, ga, k);
          if HasKind(b[1..], ga, k) {
            HasKindAbove(ga, b[1..], ga, k);
          }
        }
        if k in b[0].Kinds {
          assert HasKind(a, ga, k);
          if HasKind(a[1..], ga, k) {
            HasKindAbove(ga, a[1..], ga, k);
          }
        }
      }
      SortedUnique(a[0].Kinds, b[0].Kinds);
      forall g, k
        ensures HasKind(a[1..], g, k) <==> HasKind(b[1..], g, k)
      {
        LessIrreflexive(ga);
        if HasKind(a[1..], g, k) {
          HasKindAbove(ga, a[1..], g, k);
          assert HasKind(b, g, k);
        }
        if HasKind(b[1..], g, k) {
          HasKindAbove(ga, b[1..], g, k);
          assert HasKind(a, g, k);
        }
      }
      KindMatchersCanonical(a[1..], b[1..]);
      assert a == [a[0]] + a[1..];
      assert b == [b[0]] + b[1..];
    }
  }

  /**
   * Neither the order of the `@kinds` arguments nor their repetition
   * changes the kind matchers.
   */
  lemma KindMatchersOrderIndependent(t1: seq<string>, t2: seq<string>)
    requires forall t :: t in t1 <==> t in t2
    ensures KindMatchersOf(t1) == KindMatchersOf(t2)
  {
    KindMatchersCanonical(KindMatchersOf(t1), KindMatchersOf(t2));
  }

  /** In canonical kind matchers the core group, when present, is the first entry. */
  lemma CoreGroupFirst(ms: KindMatchers, i: int)
    requires WellFormed(ms) && 0 <= i < |ms| && ms[i].APIGroup == ""
    ensures i == 0
  {
    if i > 0 {
      EmptyIsLeast(ms[0].APIGroup);
    }
  }

  /** In canonical kind matchers no two entries share an API group. */
  lemma GroupsDistinct(ms: KindMatchers, i: int, j: int)
    requires WellFormed(ms) && 0 <= i < |ms| && 0 <= j < |ms| && i != j
    ensures ms[i].APIGroup != ms[j].APIGroup
  {
    LessIrreflexive(ms[i].APIGroup);
  }

  // ---------------------------------------------------------------------------
  // @matchlabels

  /** One `@matchlabels` argument as (key, value), split at the first `=`; a token without `=` is a key with the empty value. */
  function LabelToken(token: string): (string, string) {
    var i := IndexOf(token, '=');
    if i == |token| then (token, "") else (token[..i], token[i + 1..])
  }

  /** `key=value` reads back as its key and value, even when the value holds `=`. */
  lemma LabelTokenOf(key: string, value: string)
    requires '=' !in key
    ensures LabelToken(key + "=" + value) == (key, value)
  {
    var t := key + "=" + value;
    assert t[|key|] == '=';
    assert forall j :: 0 <= j < |key| ==> t[j] == key[j];
    assert t[..|key|] == key;
    assert t[|key| + 1..] == value;
  }

  /**
   * The label map of a run of `@matchlabels` arguments: it holds the key of
   * every token and no other, each with the value of the LAST token
   * carrying that key.
   */
  function MatchLabelsOf(tokens: seq<string>): (m: MatchLabelsMatcher)
    ensures forall key :: key in m <==> exists t :: t in tokens && LabelToken(t).0 == key
    ensures forall key :: key in m ==> LastWrite(tokens, key, m[key])
  {
    if tokens == [] then map[]
    else
      var init := tokens[..|tokens| - 1];
      var last := tokens[|tokens| - 1];
      assert tokens == init + [last];
      var (key, value) := LabelToken(last);
      var prev := MatchLabelsOf(init);
      var m := prev[key := value];
      assert forall k :: k in m ==> LastWrite(tokens, k, m[k]) by {
        forall k | k in m
          ensures LastWrite(tokens, k, m[k])
        {
          if k == key {
            LastWriteLast(init, last);
          } else {
            LastWriteBefore(init, last, k, prev[k]);
          }
        }
      }
      m
  }

  /** Some token of `tokens` sets `key` to `value`, and no later token sets `key` again. */
  predicate LastWrite(tokens: seq<string>, key: string, value: string) {
    exists i :: 0 <= i < |tokens| && LabelToken(tokens[i]) == (key, value)
      && forall j :: i < j < |tokens| ==> LabelToken(tokens[j]).0 != key
  }

  /** The last token sets its own key. */
  lemma LastWriteLast(init: seq<string>, last: string)
    ensures LastWrite(init + [last], LabelToken(last).0, LabelToken(last).1)
  {
    assert (init + [last])[|init|] == last;
  }

  /** A token for another key leaves the last write of `key` as it was. */
  lemma LastWriteBefore(init: seq<string>, last: string, key: string, value: string)
    requires LastWrite(init, key, value) && LabelToken(last).0 != key
    ensures LastWrite(init + [last], key, value)
  {
    var tokens := init + [last];
    var i :| 0 <= i < |init| && LabelToken(init[i]) == (key, value)
      && forall j :: i < j < |init| ==> LabelToken(init[j]).0 != key;
    assert tokens[i] == init[i];
    assert forall j :: i < j < |tokens| ==> LabelToken(tokens[j]).0 != key;
  }

  lemma UpdateAfterUnion(x: MatchLabelsMatcher, y: MatchLabelsMatcher, key: string, value: string)
    ensures (x + y)[key := value] == x + y[key := value]
  {
  }

  lemma MatchLabelsSnoc(tokens: seq<string>, t: string)
    ensures MatchLabelsOf(tokens + [t]) == MatchLabelsOf(tokens)[LabelToken(t).0 := LabelToken(t).1]
  {
    assert (tokens + [t])[..|tokens|] == tokens;
  }

  /** Labels of two runs of arguments merge, the later run winning on a shared key. */
  lemma {:induction false} MatchLabelsMerge(a: seq<string>, b: seq<string>)
    ensures MatchLabelsOf(a + b) == MatchLabelsOf(a) + MatchLabelsOf(b)
  {
    if b == [] {
      assert a + b == a;
    } else {
      var b' := b[..|b| - 1];
      var last := b[|b| - 1];
      assert b == b' + [last];
      assert a + b == (a + b') + [last];
      MatchLabelsMerge(a, b');
      MatchLabelsSnoc(a + b', last);
      MatchLabelsSnoc(b', last);
      UpdateAfterUnion(MatchLabelsOf(a), MatchLabelsOf(b'), LabelToken(last).0, LabelToken(last).1);
    }
  }

  // ---------------------------------------------------------------------------
  // @matchExpression

  /**
   * One `@matchExpression key operator [v1,v2,...]` line: 2 arguments give
   * no values, 3 give the third split at commas; any other count, or a line
   * not carrying the tag, is an error.
   */
  function ParseExpression(comment: string): (r: Result<MatchExpressionMatcher, ParseError>)
    ensures !HasTag(MatchExpressionTag, comment) ==> r == Err(TagMismatch(MatchExpressionTag))
    ensures HasTag(MatchExpressionTag, comment) ==>
      var n := |Fields(comment[|MatchExpressionTag|..])|;
      (r.Err? <==> n < 2 || n > 3)
      && (r.Err? ==> r.error == InvalidExpressionArity(comment))
      && (r.Ok? ==> (r.value.Values == [] <==> n == 2))
  {
    if !HasTag(MatchExpressionTag, comment) then Err(TagMismatch(MatchExpressionTag))
    else
      var args := Fields(comment[|MatchExpressionTag|..]);
      if |args| == 2 then Ok(MatchExpressionMatcher(args[0], args[1], []))
      else if |args| == 3 then Ok(MatchExpressionMatcher(args[0], args[1], Split(args[2], ',')))
      else Err(InvalidExpressionArity(comment))
  }

  /** The annotation line that writes out one expression matcher. */
  function ExpressionLine(m: MatchExpressionMatcher): string {
    AnnotationLine(MatchExpressionTag, [m.Key, m.Operator] + (if m.Values == [] then [] else [Join(m.Values, ',')]))
  }

  /**
   * An expression matcher whose key and operator are words and whose values,
   * if any, hold no comma and write out to a word, parses back from its line.
   */
  lemma ParseExpressionRoundTrip(m: MatchExpressionMatcher)
    requires IsWord(m.Key) && IsWord(m.Operator)
    requires m.Values != [] ==> IsWord(Join(m.Values, ',')) && forall i :: 0 <= i < |m.Values| ==> ',' !in m.Values[i]
    ensures ParseExpression(ExpressionLine(m)) == Ok(m)
  {
    var ws := [m.Key, m.Operator] + (if m.Values == [] then [] else [Join(m.Values, ',')]);
    AnnotationLineFields(MatchExpressionTag, ws);
    if m.Values != [] {
      SplitJoin(m.Values, ',');
    }
  }

  /**
   * A `@matchExpression` line whose arguments are separated by runs of
   * whitespace of any length: two words give key and operator with no
   * values, three words give the third split at commas, and any other
   * count is an error naming the line.
   */
  lemma ParseExpressionWeave(ws: seq<string>, gaps: seq<string>)
    requires AllWords(ws) && Separated(gaps, |ws|) && gaps[0] != []
    ensures |ws| == 2 ==>
      ParseExpression(MatchExpressionTag + Weave(ws, gaps)) == Ok(MatchExpressionMatcher(ws[0], ws[1], []))
    ensures |ws| == 3 ==>
      ParseExpression(MatchExpressionTag + Weave(ws, gaps)) == Ok(MatchExpressionMatcher(ws[0], ws[1], Split(ws[2], ',')))
    ensures |ws| != 2 && |ws| != 3 ==>
      ParseExpression(MatchExpressionTag + Weave(ws, gaps)) == Err(InvalidExpressionArity(MatchExpressionTag + Weave(ws, gaps)))
  {
    var comment := MatchExpressionTag + Weave(ws, gaps);
    if ws != [] {
      assert Weave(ws, gaps) == gaps[0] + ws[0] + Weave(ws[1..], gaps[1..]);
    }
    assert comment[..|MatchExpressionTag|] == MatchExpressionTag;
    assert comment[|MatchExpressionTag|] == gaps[0][0];
    assert comment[|MatchExpressionTag|..] == Weave(ws, gaps);
    FieldsWeave(ws, gaps);
  }

  /** `comment` is a `@matchExpression` line with the wrong number of arguments. */
  predicate BadExpression(comment: string) {
    HasTag(MatchExpressionTag, comment) && ParseExpression(comment).Err?
  }

  /** Some line of `comments` is a `@matchExpression` line with the wrong argument count. */
  predicate AnyBadExpression(comments: seq<string>) {
    exists i :: 0 <= i < |comments| && BadExpression(comments[i])
  }

  /** The lines of `comments` that carry `tag`, in order. */
  function TaggedLines(tag: string, comments: seq<string>): seq<string> {
    if comments == [] then []
    else TaggedLines(tag, comments[..|comments| - 1]) + (if HasTag(tag, comments[|comments| - 1]) then [comments[|comments| - 1]] else [])
  }

  /**
   * The expression matchers of a header: one per `@matchExpression` line, in
   * line order, other lines ignored; the first line with a wrong argument
   * count makes it fail.
   */
  function MatchExpressions(comments: seq<string>): (r: Result<seq<MatchExpressionMatcher>, ParseError>)
    ensures r.Err? <==> AnyBadExpression(comments)
    ensures r.Err? ==>
      exists i :: (0 <= i < |comments| && BadExpression(comments[i])
        && r.error == InvalidExpressionArity(comments[i])
        && forall j :: 0 <= j < i ==> !BadExpression(comments[j]))
    ensures r.Ok? ==> |r.value| == |TaggedLines(MatchExpressionTag, comments)|
    decreases |comments|
  {
    if comments == [] then Ok([])
    else
      var init := comments[..|comments| - 1];
      var last := comments[|comments| - 1];
      assert forall i :: 0 <= i < |init| ==> init[i] == comments[i];
      var before :- MatchExpressions(init);
      if HasTag(MatchExpressionTag, last) then
        var m :- ParseExpression(last);
        Ok(before + [m])
      else
        Ok(before)
  }

  /** The k-th expression matcher is the parse of the k-th `@matchExpression` line. */
  lemma {:induction false} MatchExpressionsTagged(comments: seq<string>)
    ensures MatchExpressions(comments).Ok? ==>
      forall k :: 0 <= k < |MatchExpressions(comments).value| ==>
        ParseExpression(TaggedLines(MatchExpressionTag, comments)[k]) == Ok(MatchExpressions(comments).value[k])
  {
    if comments != [] {
      var init, last := comments[..|comments| - 1], comments[|comments| - 1];
      assert comments == init + [last];
      MatchExpressionsTagged(init);
      MatchExpressionsSnoc(init, last);
    }
  }

  /** A single line yields its expression when it carries the tag, and nothing when it does not. */
  lemma MatchExpressionsOne(comment: string)
    ensures MatchExpressions([comment]) ==
      if !HasTag(MatchExpressionTag, comment) then Ok([])
      else if ParseExpression(comment).Err? then Err(ParseExpression(comment).error)
      else Ok([ParseExpression(comment).value])
  {
    assert [comment][..0] == [];
    assert MatchExpressions([]) == Ok([]);
    var r := ParseExpression(comment);
    if r.Ok? {
      assert [] + [r.value] == [r.value];
    }
  }

  /** The outcome after one more line: its expression, or its error, added when it carries the tag. */
  function Step(r: Result<seq<MatchExpressionMatcher>, ParseError>, last: string): Result<seq<MatchExpressionMatcher>, ParseError> {
    if r.Err? then r
    else if !HasTag(MatchExpressionTag, last) then r
    else if ParseExpression(last).Err? then Err(ParseExpression(last).error)
    else Ok(r.value + [ParseExpression(last).value])
  }

  /** One more line adds its expression, or its error, when it carries the tag. */
  lemma MatchExpressionsSnoc(c: seq<string>, last: string)
    ensures MatchExpressions(c + [last]) == Step(MatchExpressions(c), last)
  {
    assert (c + [last])[..|c|] == c;
    assert (c + [last])[|c|] == last;
  }

  /** Expression matchers of two runs of lines: those of the first run, then those of the second. */
  lemma {:induction false} MatchExpressionsAppend(a: seq<string>, b: seq<string>)
    ensures MatchExpressions(a + b) ==
      if MatchExpressions(a).Err? then MatchExpressions(a)
      else if MatchExpressions(b).Err? then MatchExpressions(b)
      else Ok(MatchExpressions(a).value + MatchExpressions(b).value)
  {
    if b == [] {
      assert a + b == a;
      assert MatchExpressions(b) == Ok([]);
      if MatchExpressions(a).Ok? {
        assert MatchExpressions(a).value + [] == MatchExpressions(a).value;
      }
    } else {
      var b', last := b[..|b| - 1], b[|b| - 1];
      assert b == b' + [last];
      MatchExpressionsAppend(a, b');
      MatchExpressionsAppendStep(a, b', last);
      assert MatchExpressions(a + b) == Combine(MatchExpressions(a), MatchExpressions(b));
    }
  }

  /** The outcome of two runs of lines: the first error, else both lists of matchers in order. */
  function Combine(ra: Result<seq<MatchExpressionMatcher>, ParseError>, rb: Result<seq<MatchExpressionMatcher>, ParseError>): Result<seq<MatchExpressionMatcher>, ParseError> {
    if ra.Err? then ra else if rb.Err? then rb else Ok(ra.value + rb.value)
  }

  /** Adding a line after two runs is adding it after the second run. */
  lemma CombineStep(ra: Result<seq<MatchExpressionMatcher>, ParseError>, rb: Result<seq<MatchExpressionMatcher>, ParseError>, last: string)
    ensures Combine(ra, Step(rb, last)) == Step(Combine(ra, rb), last)
  {
    if ra.Ok? && rb.Ok? && HasTag(MatchExpressionTag, last) && ParseExpression(last).Ok? {
      var x, y, z := ra.value, rb.value, [ParseExpression(last).value];
      assert x + y + z == x + (y + z);
    }
  }

  /** The step of `MatchExpressionsAppend`: one more line at the end of the second run. */
  lemma MatchExpressionsAppendStep(a: seq<string>, b: seq<string>, last: string)
    requires MatchExpressions(a + b) == Combine(MatchExpressions(a), MatchExpressions(b))
    ensures MatchExpressions(a + (b + [last])) == Combine(MatchExpressions(a), MatchExpressions(b + [last]))
  {
    assert a + (b + [last]) == (a + b) + [last];
    MatchExpressionsSnoc(a + b, last);
    MatchExpressionsSnoc(b, last);
    CombineStep(MatchExpressions(a), MatchExpressions(b), last);
  }

  // ---------------------------------------------------------------------------
  // The header

  /** A policy with its header comment lines. */
  datatype Rego = Rego(headerComments: seq<string>) {

    /**
     * Parses the header: kinds, then labels, then expressions, the first
     * failing builder's error returned. Fails exactly when a `@kinds` or
     * `@matchlabels` line is bare or a `@matchExpression` line has the
     * wrong argument count; on success the kind matchers are canonical and
     * list exactly the pairs of all `@kinds` lines, each label key holds the
     * value of the last `@matchlabels` argument that sets it, and the k-th
     * expression is the parse of the k-th `@matchExpression` line.
     */
    function Matchers(): (r: Result<Matchers, ParseError>)
      ensures r.Err? <==>
        AnyBare(KindsTag, headerComments)
        || AnyBare(MatchLabelsTag, headerComments)
        || AnyBadExpression(headerComments)
      ensures AnyBare(KindsTag, headerComments)
        ==> r == Err(NoArguments(KindsTag))
      ensures r.Ok? ==> WellFormed(r.value.KindMatchers)
      ensures r.Ok? ==> forall g, k :: HasKind(r.value.KindMatchers, g, k) <==>
        exists t :: Given(KindsTag, headerComments, t) && KindToken(t) == (g, k)
      ensures r.Ok? ==> forall key :: key in r.value.MatchLabelsMatcher <==>
        exists t :: Given(MatchLabelsTag, headerComments, t) && LabelToken(t).0 == key
      ensures !AnyBare(KindsTag, headerComments)
        && AnyBare(MatchLabelsTag, headerComments)
        ==> r == Err(NoArguments(MatchLabelsTag))
      ensures !AnyBare(KindsTag, headerComments)
        && !AnyBare(MatchLabelsTag, headerComments)
        && AnyBadExpression(headerComments)
        ==> exists i :: (0 <= i < |headerComments| && BadExpression(headerComments[i])
          && r == Err(InvalidExpressionArity(headerComments[i]))
          && forall j :: 0 <= j < i ==> !BadExpression(headerComments[j]))
      ensures r.Ok? ==> (
        && TaggedArgs(MatchLabelsTag, headerComments).Ok?
        && forall key :: key in r.value.MatchLabelsMatcher ==>
          LastWrite(TaggedArgs(MatchLabelsTag, headerComments).value, key, r.value.MatchLabelsMatcher[key]))
      ensures r.Ok? ==> |r.value.MatchExpressionsMatcher| == |TaggedLines(MatchExpressionTag, headerComments)|
      ensures r.Ok? ==> forall k :: 0 <= k < |r.value.MatchExpressionsMatcher| ==>
        ParseExpression(TaggedLines(MatchExpressionTag, headerComments)[k]) == Ok(r.value.MatchExpressionsMatcher[k])
    {
      var kinds :- TaggedArgs(KindsTag, headerComments);
      var labels :- TaggedArgs(MatchLabelsTag, headerComments);
      var expressions :- MatchExpressions(headerComments);
      MatchExpressionsTagged(headerComments);
      Ok(NoMatchers.(
        KindMatchers := KindMatchersOf(kinds),
        MatchLabelsMatcher := MatchLabelsOf(labels),
        MatchExpressionsMatcher := expressions))
    }
  }
}
