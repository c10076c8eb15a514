/**
 * The rows of the `rego` package's table-driven matcher tests, each stated
 * of the model as a lemma about `Rego.Matchers` or `GetStringListMatcher`.
 *
 * A header line of a test is written `AnnotationLine(tag, ws)`: the tag, one
 * space, and the words `ws` separated by single spaces, so
 * `AnnotationLine(KindsTag, ["core/Pod"])` is the comment line `@kinds core/Pod`.
 */
module MatchersTest {
  import opened Wrappers
  import opened Text
  import opened Order
  import opened Rego

  // ---------------------------------------------------------------------------
  // What one header line contributes to each builder

  /** A header whose three builders succeed gives their results. */
  lemma HeaderOf(comments: seq<string>, kinds: seq<string>, labels: seq<string>, expressions: seq<MatchExpressionMatcher>)
    requires TaggedArgs(KindsTag, comments) == Ok(kinds)
    requires TaggedArgs(MatchLabelsTag, comments) == Ok(labels)
    requires MatchExpressions(comments) == Ok(expressions)
    ensures Rego(comments).Matchers() == Ok(Matchers(KindMatchersOf(kinds), MatchLabelsOf(labels), expressions))
  {
  }

  /** A `@kinds` line made of the words `ws`. */
  lemma KindsLine(ws: seq<string>)
    requires |ws| > 0 && AllWords(ws)
    ensures TaggedArgs(KindsTag, [AnnotationLine(KindsTag, ws)]) == Ok(ws)
    ensures TaggedArgs(MatchLabelsTag, [AnnotationLine(KindsTag, ws)]) == Ok([])
    ensures MatchExpressions([AnnotationLine(KindsTag, ws)]) == Ok([])
  {
    var line := AnnotationLine(KindsTag, ws);
    GetStringListMatcherRoundTrip(KindsTag, ws);
    TagsExclusive(line);
    TaggedArgsOne(KindsTag, line);
    TaggedArgsOne(MatchLabelsTag, line);
    MatchExpressionsOne(line);
  }

  /** A `@matchlabels` line made of the words `ws`. */
  lemma LabelsLine(ws: seq<string>)
    requires |ws| > 0 && AllWords(ws)
    ensures TaggedArgs(KindsTag, [AnnotationLine(MatchLabelsTag, ws)]) == Ok([])
    ensures TaggedArgs(MatchLabelsTag, [AnnotationLine(MatchLabelsTag, ws)]) == Ok(ws)
    ensures MatchExpressions([AnnotationLine(MatchLabelsTag, ws)]) == Ok([])
  {
    var line := AnnotationLine(MatchLabelsTag, ws);
    GetStringListMatcherRoundTrip(MatchLabelsTag, ws);
    TagsExclusive(line);
    TaggedArgsOne(KindsTag, line);
    TaggedArgsOne(MatchLabelsTag, line);
    MatchExpressionsOne(line);
  }

  /** A `@matchExpression` line contributes nothing to the other two builders. */
  lemma ExpressionLineOf(line: string)
    requires HasTag(MatchExpressionTag, line)
    ensures TaggedArgs(KindsTag, [line]) == Ok([])
    ensures TaggedArgs(MatchLabelsTag, [line]) == Ok([])
  {
    TagsExclusive(line);
    TaggedArgsOne(KindsTag, line);
    TaggedArgsOne(MatchLabelsTag, line);
  }

  /** The header of one `@kinds` line made of the words `ws`. */
  lemma OneKindsLine(ws: seq<string>)
    requires |ws| > 0 && AllWords(ws)
    ensures Rego([AnnotationLine(KindsTag, ws)]).Matchers() == Ok(Matchers(KindMatchersOf(ws), map[], []))
  {
    KindsLine(ws);
    HeaderOf([AnnotationLine(KindsTag, ws)], ws, [], []);
  }

  /** Two `@kinds` lines: their words in line order, and nothing for the other builders. */
  lemma TwoKindsLines(ws1: seq<string>, ws2: seq<string>)
    requires |ws1| > 0 && AllWords(ws1) && |ws2| > 0 && AllWords(ws2)
    ensures TaggedArgs(KindsTag, [AnnotationLine(KindsTag, ws1), AnnotationLine(KindsTag, ws2)]) == Ok(ws1 + ws2)
    ensures TaggedArgs(MatchLabelsTag, [AnnotationLine(KindsTag, ws1), AnnotationLine(KindsTag, ws2)]) == Ok([])
    ensures MatchExpressions([AnnotationLine(KindsTag, ws1), AnnotationLine(KindsTag, ws2)]) == Ok([])
  {
    var l1, l2 := AnnotationLine(KindsTag, ws1), AnnotationLine(KindsTag, ws2);
    assert [l1, l2] == [l1] + [l2];
    KindsLine(ws1);
    KindsLine(ws2);
    TaggedArgsAppend(KindsTag, [l1], [l2]);
    TaggedArgsAppend(MatchLabelsTag, [l1], [l2]);
    MatchExpressionsAppend([l1], [l2]);
  }

  /** Two `@matchlabels` lines: their words in line order, and nothing for the other builders. */
  lemma TwoLabelsLines(ws1: seq<string>, ws2: seq<string>)
    requires |ws1| > 0 && AllWords(ws1) && |ws2| > 0 && AllWords(ws2)
    ensures TaggedArgs(KindsTag, [AnnotationLine(MatchLabelsTag, ws1), AnnotationLine(MatchLabelsTag, ws2)]) == Ok([])
    ensures TaggedArgs(MatchLabelsTag, [AnnotationLine(MatchLabelsTag, ws1), AnnotationLine(MatchLabelsTag, ws2)]) == Ok(ws1 + ws2)
    ensures MatchExpressions([AnnotationLine(MatchLabelsTag, ws1), AnnotationLine(MatchLabelsTag, ws2)]) == Ok([])
  {
    var l1, l2 := AnnotationLine(MatchLabelsTag, ws1), AnnotationLine(MatchLabelsTag, ws2);
    assert [l1, l2] == [l1] + [l2];
    LabelsLine(ws1);
    LabelsLine(ws2);
    TaggedArgsAppend(KindsTag, [l1], [l2]);
    TaggedArgsAppend(MatchLabelsTag, [l1], [l2]);
    MatchExpressionsAppend([l1], [l2]);
  }

  /** Two well-formed `@matchExpression` lines: their matchers in line order, and nothing for the other builders. */
  lemma TwoExpressionLines(l1: string, m1: MatchExpressionMatcher, l2: string, m2: MatchExpressionMatcher)
    requires HasTag(MatchExpressionTag, l1) && ParseExpression(l1) == Ok(m1)
    requires HasTag(MatchExpressionTag, l2) && ParseExpression(l2) == Ok(m2)
    ensures TaggedArgs(KindsTag, [l1, l2]) == Ok([])
    ensures TaggedArgs(MatchLabelsTag, [l1, l2]) == Ok([])
    ensures MatchExpressions([l1, l2]) == Ok([m1, m2])
  {
    assert [l1, l2] == [l1] + [l2];
    ExpressionLineOf(l1);
    ExpressionLineOf(l2);
    MatchExpressionsOne(l1);
    MatchExpressionsOne(l2);
    TaggedArgsAppend(KindsTag, [l1], [l2]);
    TaggedArgsAppend(MatchLabelsTag, [l1], [l2]);
    MatchExpressionsAppend([l1], [l2]);
    assert [m1] + [m2] == [m1, m2];
  }

  /** The line of an expression matcher with values is its key, operator and comma-joined values. */
  lemma ExpressionLineWithValues(m: MatchExpressionMatcher, joined: string)
    requires m.Values != [] && Join(m.Values, ',') == joined
    ensures ExpressionLine(m) == AnnotationLine(MatchExpressionTag, [m.Key, m.Operator, joined])
  {
    assert [m.Key, m.Operator] + [joined] == [m.Key, m.Operator, joined];
  }

  /** The line of an expression matcher without values is its key and operator. */
  lemma ExpressionLineWithoutValues(m: MatchExpressionMatcher)
    requires m.Values == []
    ensures ExpressionLine(m) == AnnotationLine(MatchExpressionTag, [m.Key, m.Operator])
  {
    assert [m.Key, m.Operator] + [] == [m.Key, m.Operator];
  }

  lemma KindMatchersOfSnoc(ts: seq<string>, t: string)
    ensures KindMatchersOf(ts + [t]) == AddKind(KindMatchersOf(ts), KindToken(t).0, KindToken(t).1)
  {
    assert (ts + [t])[..|ts|] == ts;
  }

  lemma InsertAfter(a: string, x: string)
    requires Less(a, x)
    ensures Insert([a], x) == [a, x]
  {
    LessAsymmetric(a, x);
    assert [a][1..] == [];
  }

  lemma InsertBefore(a: string, x: string)
    requires Less(x, a)
    ensures Insert([a], x) == [x, a]
  {
  }

  // ---------------------------------------------------------------------------
  // The kinds of the tests

  lemma PodToken()
    ensures KindToken("core/Pod") == ("", "Pod")
  {
    assert "core/Pod" == "core" + "/" + "Pod";
    KindTokenOf("core", "Pod");
  }

  lemma DeploymentToken()
    ensures KindToken("apps/Deployment") == ("apps", "Deployment")
  {
    assert "apps/Deployment" == "apps" + "/" + "Deployment";
    KindTokenOf("apps", "Deployment");
  }

  lemma StatefulSetToken()
    ensures KindToken("apps/StatefulSet") == ("apps", "StatefulSet")
  {
    assert "apps/StatefulSet" == "apps" + "/" + "StatefulSet";
    KindTokenOf("apps", "StatefulSet");
  }

  lemma DeploymentBeforeStatefulSet()
    ensures Less("Deployment", "StatefulSet")
  {
    assert "Deployment"[0] == 'D';
    assert "StatefulSet"[0] == 'S';
  }

  const Pod := KindMatcher("", ["Pod"])
  const Deployment := KindMatcher("apps", ["Deployment"])
  const StatefulSet := KindMatcher("apps", ["StatefulSet"])
  const Apps := KindMatcher("apps", ["Deployment", "StatefulSet"])

  lemma AddStatefulSetToDeployment()
    ensures AddKind([Deployment], "apps", "StatefulSet") == [Apps]
  {
    DeploymentBeforeStatefulSet();
    InsertAfter("Deployment", "StatefulSet");
  }

  lemma AddDeploymentToStatefulSet()
    ensures AddKind([StatefulSet], "apps", "Deployment") == [Apps]
  {
    DeploymentBeforeStatefulSet();
    InsertBefore("StatefulSet", "Deployment");
  }

  lemma KindsOfPod()
    ensures KindMatchersOf(["core/Pod"]) == [Pod]
  {
    PodToken();
    KindMatchersOfSnoc([], "core/Pod");
    assert [] + ["core/Pod"] == ["core/Pod"];
  }

  lemma KindsOfPodPod()
    ensures KindMatchersOf(["core/Pod", "core/Pod"]) == [Pod]
  {
    KindsOfPod();
    KindMatchersOrderIndependent(["core/Pod", "core/Pod"], ["core/Pod"]);
  }

  lemma KindsOfDeployment()
    ensures KindMatchersOf(["apps/Deployment"]) == [Deployment]
  {
    DeploymentToken();
    KindMatchersOfSnoc([], "apps/Deployment");
    assert [] + ["apps/Deployment"] == ["apps/Deployment"];
  }

  lemma KindsOfStatefulSet()
    ensures KindMatchersOf(["apps/StatefulSet"]) == [StatefulSet]
  {
    StatefulSetToken();
    KindMatchersOfSnoc([], "apps/StatefulSet");
    assert [] + ["apps/StatefulSet"] == ["apps/StatefulSet"];
  }

  lemma KindsOfDeploymentStatefulSet()
    ensures KindMatchersOf(["apps/Deployment", "apps/StatefulSet"]) == [Apps]
  {
    KindsOfDeployment();
    StatefulSetToken();
    KindMatchersOfSnoc(["apps/Deployment"], "apps/StatefulSet");
    assert ["apps/Deployment"] + ["apps/StatefulSet"] == ["apps/Deployment", "apps/StatefulSet"];
    AddStatefulSetToDeployment();
  }

  lemma KindsOfStatefulSetDeployment()
    ensures KindMatchersOf(["apps/StatefulSet", "apps/Deployment"]) == [Apps]
  {
    KindsOfStatefulSet();
    DeploymentToken();
    KindMatchersOfSnoc(["apps/StatefulSet"], "apps/Deployment");
    assert ["apps/StatefulSet"] + ["apps/Deployment"] == ["apps/StatefulSet", "apps/Deployment"];
    AddDeploymentToStatefulSet();
  }

  lemma AddDeploymentAfterPod()
    ensures AddKind([Pod], "apps", "Deployment") == [Pod, Deployment]
  {
    assert Less("", "apps");
    assert AddKind([Pod][1..], "apps", "Deployment") == [Deployment];
  }

  lemma KindsOfPodDeployment()
    ensures KindMatchersOf(["core/Pod", "apps/Deployment"]) == [Pod, Deployment]
  {
    KindsOfPod();
    DeploymentToken();
    KindMatchersOfSnoc(["core/Pod"], "apps/Deployment");
    assert ["core/Pod"] + ["apps/Deployment"] == ["core/Pod", "apps/Deployment"];
    AddDeploymentAfterPod();
  }

  lemma AddStatefulSetAfterPod()
    ensures AddKind([Pod, Deployment], "apps", "StatefulSet") == [Pod, Apps]
  {
    AddStatefulSetToDeployment();
    assert AddKind([Pod, Deployment], "apps", "StatefulSet") == [Pod] + AddKind([Deployment], "apps", "StatefulSet");
  }

  lemma KindsOfPodDeploymentStatefulSet()
    ensures KindMatchersOf(["core/Pod", "apps/Deployment", "apps/StatefulSet"]) == [Pod, Apps]
  {
    KindsOfPodDeployment();
    AddStatefulSetAfterPod();
    StatefulSetToken();
    KindMatchersOfSnoc(["core/Pod", "apps/Deployment"], "apps/StatefulSet");
    assert ["core/Pod", "apps/Deployment"] + ["apps/StatefulSet"] == ["core/Pod", "apps/Deployment", "apps/StatefulSet"];
  }

  lemma KindsOfCoreLast()
    ensures KindMatchersOf(["apps/Deployment", "apps/StatefulSet", "core/Pod"]) == [Pod, Apps]
  {
    KindsOfPodDeploymentStatefulSet();
    KindMatchersOrderIndependent(["apps/Deployment", "apps/StatefulSet", "core/Pod"], ["core/Pod", "apps/Deployment", "apps/StatefulSet"]);
  }

  lemma KindsOfCoreBetween()
    ensures KindMatchersOf(["apps/Deployment", "core/Pod", "apps/StatefulSet"]) == [Pod, Apps]
  {
    KindsOfPodDeploymentStatefulSet();
    KindMatchersOrderIndependent(["apps/Deployment", "core/Pod", "apps/StatefulSet"], ["core/Pod", "apps/Deployment", "apps/StatefulSet"]);
  }

  lemma KindWords()
    ensures IsWord("core/Pod") && IsWord("apps/Deployment") && IsWord("apps/StatefulSet")
  {
  }

  // ---------------------------------------------------------------------------
  // TestMultilineKindMatchers

  lemma MultilineKindsLines()
    ensures TaggedArgs(KindsTag, [AnnotationLine(KindsTag, ["core/Pod", "apps/Deployment"]), AnnotationLine(KindsTag, ["apps/StatefulSet"])])
      == Ok(["core/Pod", "apps/Deployment", "apps/StatefulSet"])
    ensures TaggedArgs(MatchLabelsTag, [AnnotationLine(KindsTag, ["core/Pod", "apps/Deployment"]), AnnotationLine(KindsTag, ["apps/StatefulSet"])]) == Ok([])
    ensures MatchExpressions([AnnotationLine(KindsTag, ["core/Pod", "apps/Deployment"]), AnnotationLine(KindsTag, ["apps/StatefulSet"])]) == Ok([])
  {
    KindWords();
    TwoKindsLines(["core/Pod", "apps/Deployment"], ["apps/StatefulSet"]);
    assert ["core/Pod", "apps/Deployment"] + ["apps/StatefulSet"] == ["core/Pod", "apps/Deployment", "apps/StatefulSet"];
  }

  /** Two `@kinds` lines merge into one entry per group, the core group first. */
  lemma MultilineKindMatchers()
    ensures Rego([AnnotationLine(KindsTag, ["core/Pod", "apps/Deployment"]), AnnotationLine(KindsTag, ["apps/StatefulSet"])]).Matchers()
      == Ok(Matchers([Pod, Apps], map[], []))
  {
    MultilineKindsLines();
    HeaderOf([AnnotationLine(KindsTag, ["core/Pod", "apps/Deployment"]), AnnotationLine(KindsTag, ["apps/StatefulSet"])],
      ["core/Pod", "apps/Deployment", "apps/StatefulSet"], [], []);
    KindsOfPodDeploymentStatefulSet();
  }

  // ---------------------------------------------------------------------------
  // TestKindMatchers

  /** `core` is the core group `""`. */
  lemma KindMatchersCorePod()
    ensures Rego([AnnotationLine(KindsTag, ["core/Pod"])]).Matchers() == Ok(Matchers([Pod], map[], []))
  {
    KindWords();
    OneKindsLine(["core/Pod"]);
    KindsOfPod();
  }

  /** A repeated kind is listed once. */
  lemma KindMatchersCorePodTwice()
    ensures Rego([AnnotationLine(KindsTag, ["core/Pod", "core/Pod"])]).Matchers() == Ok(Matchers([Pod], map[], []))
  {
    KindWords();
    OneKindsLine(["core/Pod", "core/Pod"]);
    KindsOfPodPod();
  }

  /** Kinds of a group given in ascending order stay in that order. */
  lemma KindMatchersAppsAscending()
    ensures Rego([AnnotationLine(KindsTag, ["apps/Deployment", "apps/StatefulSet"])]).Matchers() == Ok(Matchers([Apps], map[], []))
  {
    KindWords();
    OneKindsLine(["apps/Deployment", "apps/StatefulSet"]);
    KindsOfDeploymentStatefulSet();
  }

  /** Kinds of a group given in descending order come out ascending. */
  lemma KindMatchersAppsDescending()
    ensures Rego([AnnotationLine(KindsTag, ["apps/StatefulSet", "apps/Deployment"])]).Matchers() == Ok(Matchers([Apps], map[], []))
  {
    KindWords();
    OneKindsLine(["apps/StatefulSet", "apps/Deployment"]);
    KindsOfStatefulSetDeployment();
  }

  /** The core group comes first even when named last. */
  lemma KindMatchersCoreLast()
    ensures Rego([AnnotationLine(KindsTag, ["apps/Deployment", "apps/StatefulSet", "core/Pod"])]).Matchers()
      == Ok(Matchers([Pod, Apps], map[], []))
  {
    KindWords();
    OneKindsLine(["apps/Deployment", "apps/StatefulSet", "core/Pod"]);
    KindsOfCoreLast();
  }

  /** The core group comes first even when named between two kinds of another group. */
  lemma KindMatchersCoreBetween()
    ensures Rego([AnnotationLine(KindsTag, ["apps/Deployment", "core/Pod", "apps/StatefulSet"])]).Matchers()
      == Ok(Matchers([Pod, Apps], map[], []))
  {
    KindWords();
    OneKindsLine(["apps/Deployment", "core/Pod", "apps/StatefulSet"]);
    KindsOfCoreBetween();
  }

  // ---------------------------------------------------------------------------
  // TestGetMatchLabelsMatcher

  const Labels := map["team" := "a", "app.kubernetes.io/name" := "test", "example.com/env" := "production"]

  /** Three arguments set their keys in order. */
  lemma LabelsOfThree(t1: string, t2: string, t3: string)
    ensures MatchLabelsOf([t1, t2, t3])
      == map[LabelToken(t1).0 := LabelToken(t1).1][LabelToken(t2).0 := LabelToken(t2).1][LabelToken(t3).0 := LabelToken(t3).1]
  {
    MatchLabelsSnoc([], t1);
    MatchLabelsSnoc([t1], t2);
    MatchLabelsSnoc([t1, t2], t3);
    assert [] + [t1] == [t1];
    assert [t1] + [t2] == [t1, t2];
    assert [t1, t2] + [t3] == [t1, t2, t3];
  }

  lemma LabelsOfTokens()
    ensures MatchLabelsOf(["team=a", "app.kubernetes.io/name=test", "example.com/env=production"]) == Labels
  {
    assert "team=a" == "team" + "=" + "a";
    LabelTokenOf("team", "a");
    assert "app.kubernetes.io/name=test" == "app.kubernetes.io/name" + "=" + "test";
    LabelTokenOf("app.kubernetes.io/name", "test");
    assert "example.com/env=production" == "example.com/env" + "=" + "production";
    LabelTokenOf("example.com/env", "production");
    LabelsOfThree("team=a", "app.kubernetes.io/name=test", "example.com/env=production");
  }

  lemma LabelWords()
    ensures IsWord("team=a") && IsWord("app.kubernetes.io/name=test") && IsWord("example.com/env=production")
  {
  }

  lemma MatchLabelsLines()
    ensures TaggedArgs(KindsTag, [AnnotationLine(MatchLabelsTag, ["team=a", "app.kubernetes.io/name=test"]), AnnotationLine(MatchLabelsTag, ["example.com/env=production"])])
      == Ok([])
    ensures TaggedArgs(MatchLabelsTag, [AnnotationLine(MatchLabelsTag, ["team=a", "app.kubernetes.io/name=test"]), AnnotationLine(MatchLabelsTag, ["example.com/env=production"])])
      == Ok(["team=a", "app.kubernetes.io/name=test", "example.com/env=production"])
    ensures MatchExpressions([AnnotationLine(MatchLabelsTag, ["team=a", "app.kubernetes.io/name=test"]), AnnotationLine(MatchLabelsTag, ["example.com/env=production"])])
      == Ok([])
  {
    LabelWords();
    TwoLabelsLines(["team=a", "app.kubernetes.io/name=test"], ["example.com/env=production"]);
    assert ["team=a", "app.kubernetes.io/name=test"] + ["example.com/env=production"]
      == ["team=a", "app.kubernetes.io/name=test", "example.com/env=production"];
  }

  /** Two `@matchlabels` lines merge into one map; keys may hold `.` and `/`. */
  lemma MatchLabelsTwoLines()
    ensures Rego([AnnotationLine(MatchLabelsTag, ["team=a", "app.kubernetes.io/name=test"]), AnnotationLine(MatchLabelsTag, ["example.com/env=production"])]).Matchers()
      == Ok(Matchers([], Labels, []))
  {
    MatchLabelsLines();
    HeaderOf([AnnotationLine(MatchLabelsTag, ["team=a", "app.kubernetes.io/name=test"]), AnnotationLine(MatchLabelsTag, ["example.com/env=production"])],
      [], ["team=a", "app.kubernetes.io/name=test", "example.com/env=production"], []);
    LabelsOfTokens();
  }

  // ---------------------------------------------------------------------------
  // TestGetMatchExpressionsMatcher

  const FooIn := MatchExpressionMatcher("foo", "In", ["bar", "baz"])
  const DoggosExists := MatchExpressionMatcher("doggos", "Exists", [])

  lemma ExpressionWords()
    ensures IsWord("foo") && IsWord("In") && IsWord("bar,baz") && IsWord("doggos") && IsWord("Exists")
    ensures IsWord("bar") && IsWord("baz")
    ensures ',' !in "bar" && ',' !in "baz"
  {
  }

  lemma FooInLine()
    ensures HasTag(MatchExpressionTag, AnnotationLine(MatchExpressionTag, ["foo", "In", "bar,baz"]))
    ensures ParseExpression(AnnotationLine(MatchExpressionTag, ["foo", "In", "bar,baz"])) == Ok(FooIn)
  {
    assert Join(["bar", "baz"], ',') == "bar,baz";
    ExpressionLineWithValues(FooIn, "bar,baz");
    ExpressionWords();
    TagThenWords(MatchExpressionTag, Unwords(["foo", "In", "bar,baz"]));
    ParseExpressionRoundTrip(FooIn);
  }

  lemma DoggosLine()
    ensures HasTag(MatchExpressionTag, AnnotationLine(MatchExpressionTag, ["doggos", "Exists"]))
    ensures ParseExpression(AnnotationLine(MatchExpressionTag, ["doggos", "Exists"])) == Ok(DoggosExists)
  {
    ExpressionLineWithoutValues(DoggosExists);
    ExpressionWords();
    TagThenWords(MatchExpressionTag, Unwords(["doggos", "Exists"]));
    ParseExpressionRoundTrip(DoggosExists);
  }

  /** No header lines: every field empty, no error. */
  lemma MatchExpressionsEmpty()
    ensures Rego([]).Matchers() == Ok(NoMatchers)
  {
  }

  /** Three arguments: the third is split at commas. */
  lemma MatchExpressionsSingle()
    ensures Rego([AnnotationLine(MatchExpressionTag, ["foo", "In", "bar,baz"])]).Matchers() == Ok(Matchers([], map[], [FooIn]))
  {
    var l := AnnotationLine(MatchExpressionTag, ["foo", "In", "bar,baz"]);
    FooInLine();
    ExpressionLineOf(l);
    MatchExpressionsOne(l);
    HeaderOf([l], [], [], [FooIn]);
  }

  lemma FooDoggosLines()
    ensures TaggedArgs(KindsTag, [AnnotationLine(MatchExpressionTag, ["foo", "In", "bar,baz"]), AnnotationLine(MatchExpressionTag, ["doggos", "Exists"])]) == Ok([])
    ensures TaggedArgs(MatchLabelsTag, [AnnotationLine(MatchExpressionTag, ["foo", "In", "bar,baz"]), AnnotationLine(MatchExpressionTag, ["doggos", "Exists"])]) == Ok([])
    ensures MatchExpressions([AnnotationLine(MatchExpressionTag, ["foo", "In", "bar,baz"]), AnnotationLine(MatchExpressionTag, ["doggos", "Exists"])])
      == Ok([FooIn, DoggosExists])
  {
    FooInLine();
    DoggosLine();
    TwoExpressionLines(AnnotationLine(MatchExpressionTag, ["foo", "In", "bar,baz"]), FooIn, AnnotationLine(MatchExpressionTag, ["doggos", "Exists"]), DoggosExists);
  }

  lemma UnrelatedLine()
    ensures TaggedArgs(KindsTag, ["unrelated comment"]) == Ok([])
    ensures TaggedArgs(MatchLabelsTag, ["unrelated comment"]) == Ok([])
    ensures MatchExpressions(["unrelated comment"]) == Ok([])
  {
    assert "unrelated comment"[0] == 'u';
    TaggedArgsOne(KindsTag, "unrelated comment");
    TaggedArgsOne(MatchLabelsTag, "unrelated comment");
    MatchExpressionsOne("unrelated comment");
  }

  /** Two arguments give no values; entries keep line order; an unrelated line is ignored. */
  lemma MatchExpressionsDoubleWithUnrelated()
    ensures Rego([AnnotationLine(MatchExpressionTag, ["foo", "In", "bar,baz"]), AnnotationLine(MatchExpressionTag, ["doggos", "Exists"]), "unrelated comment"]).Matchers()
      == Ok(Matchers([], map[], [FooIn, DoggosExists]))
  {
    var l12 := [AnnotationLine(MatchExpressionTag, ["foo", "In", "bar,baz"]), AnnotationLine(MatchExpressionTag, ["doggos", "Exists"])];
    var l3 := ["unrelated comment"];
    FooDoggosLines();
    UnrelatedLine();
    TaggedArgsAppend(KindsTag, l12, l3);
    TaggedArgsAppend(MatchLabelsTag, l12, l3);
    MatchExpressionsAppend(l12, l3);
    assert l12 + l3 == [AnnotationLine(MatchExpressionTag, ["foo", "In", "bar,baz"]), AnnotationLine(MatchExpressionTag, ["doggos", "Exists"]), "unrelated comment"];
    HeaderOf(l12 + l3, [], [], [FooIn, DoggosExists]);
  }

  /** An expression line whose argument count is neither 2 nor 3 makes the whole header fail, naming the line. */
  lemma BadArity(ws: seq<string>)
    requires AllWords(ws) && (|ws| < 2 || |ws| > 3)
    ensures Rego([AnnotationLine(MatchExpressionTag, ws)]).Matchers() == Err(InvalidExpressionArity(AnnotationLine(MatchExpressionTag, ws)))
  {
    var line := AnnotationLine(MatchExpressionTag, ws);
    TagThenWords(MatchExpressionTag, Unwords(ws));
    assert (" " + Unwords(ws))[1..] == Unwords(ws);
    FieldsUnwords(ws);
    ExpressionLineOf(line);
    MatchExpressionsOne(line);
  }

  /** One argument is an error. */
  lemma MatchExpressionsTooFewParams()
    ensures Rego([AnnotationLine(MatchExpressionTag, ["foo"])]).Matchers() == Err(InvalidExpressionArity(AnnotationLine(MatchExpressionTag, ["foo"])))
  {
    ExpressionWords();
    BadArity(["foo"]);
  }

  /** Four arguments are an error. */
  lemma MatchExpressionsTooManyParams()
    ensures Rego([AnnotationLine(MatchExpressionTag, ["foo", "In", "bar", "baz"])]).Matchers()
      == Err(InvalidExpressionArity(AnnotationLine(MatchExpressionTag, ["foo", "In", "bar", "baz"])))
  {
    ExpressionWords();
    BadArity(["foo", "In", "bar", "baz"]);
  }

  // ---------------------------------------------------------------------------
  // TestGetStringListMatcher

  /** Empty tag and empty comment: an error (the empty tag is present, with nothing after it). */
  lemma StringListInvalidTag()
    ensures GetStringListMatcher("", "") == Err(NoArguments(""))
  {
  }

  /** A tag followed only by spaces has no arguments. */
  lemma StringListNoValuesSupplied()
    ensures GetStringListMatcher("@foo", "@foo     ") == Err(NoArguments("@foo"))
  {
    assert "@foo     "[4..] == "     ";
  }

  /** The arguments after the tag, in order. */
  lemma StringListValid()
    ensures GetStringListMatcher("@foo", "@foo bar baz") == Ok(["bar", "baz"])
  {
    assert "@foo bar baz" == "@foo" + " " + Unwords(["bar", "baz"]);
    GetStringListMatcherRoundTrip("@foo", ["bar", "baz"]);
  }
}
