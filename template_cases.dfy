/**
 * The scenarios of TemplateTest.java, stated as lemmas about the model, and a
 * text on which the order of the parameter entries changes what evaluate
 * returns.
 *
 * Texts are built from pieces (plain text without `$`, and placeholder
 * literals) so that the general scanning and expansion lemmas can be applied
 * piece by piece.
 */
module TemplateCases {
  import opened Wrappers
  import opened Scanner
  import opened Substitution
  import opened Templates

  /** A text without `$` yields no match. */
  lemma ScanPlain(w: string)
    requires '$' !in w
    ensures Scan(w) == []
  {
    assert w[0..|w|] == w;
    ScanFromPlain(w, 0, w, |w|);
  }

  /** Plain text, a placeholder, plain text, a placeholder: two matches, at the expected positions. */
  lemma ScanTwoPlaceholders(w1: string, n1: string, w2: string, n2: string)
    requires '$' !in w1 && '$' !in w2 && IsName(n1) && IsName(n2)
    ensures Scan(w1 + Expression(n1) + w2 + Expression(n2))
         == [Match(|w1|, n1), Match(|w1| + |n1| + 3 + |w2|, n2)]
  {
    var s := w1 + Expression(n1) + w2 + Expression(n2);
    var i1 := |w1|;
    var i2 := i1 + |n1| + 3;
    var i3 := i2 + |w2|;
    var i4 := i3 + |n2| + 3;
    assert s[0..i1] == w1;
    assert s[i1..i2] == Expression(n1);
    assert s[i2..i3] == w2;
    assert s[i3..i4] == Expression(n2);
    ScanPlainThenPlaceholder(s, 0, w1, i1, n1, i2);
    ScanPlainThenPlaceholder(s, i2, w2, i3, n2, i4);
    assert ScanFrom(s, i4) == [];
  }

  /** Plain text followed by a placeholder, under simultaneous substitution. */
  lemma ExpandPlainThenPlaceholder(w: string, n: string, t: string, m: map<string, string>)
    requires '$' !in w && IsName(n)
    ensures Expand(w + Expression(n) + t, m) == w + Replacement(n, m) + Expand(t, m)
  {
    var e, r, u := Expression(n), Replacement(n, m), Expand(t, m);
    SeqAssoc(w, e, t);
    ExpandPlainPrefix(w, e + t, m);
    ExpandExpression(n, t, m);
    SeqAssoc(w, r, u);
  }

  /** A text without `$` is left unchanged. */
  lemma ExpandPlain(w: string, m: map<string, string>)
    requires '$' !in w
    ensures Expand(w, m) == w
  {
    assert w + [] == w;
    ExpandPlainPrefix(w, [], m);
  }

  /** The two-placeholder shape of the test texts, under simultaneous substitution. */
  lemma ExpandTwoPlaceholders(w1: string, n1: string, w2: string, n2: string, m: map<string, string>)
    requires '$' !in w1 && '$' !in w2 && IsName(n1) && IsName(n2)
    ensures Expand(w1 + Expression(n1) + w2 + Expression(n2), m)
         == w1 + Replacement(n1, m) + w2 + Replacement(n2, m)
  {
    var t := w2 + Expression(n2);
    calc {
      Expand(w1 + Expression(n1) + w2 + Expression(n2), m);
      { assert w1 + Expression(n1) + w2 + Expression(n2) == w1 + Expression(n1) + t; }
      Expand(w1 + Expression(n1) + t, m);
      { ExpandPlainThenPlaceholder(w1, n1, t, m); }
      w1 + Replacement(n1, m) + Expand(t, m);
      { assert t == w2 + Expression(n2) + [];
        ExpandPlainThenPlaceholder(w2, n2, [], m); }
      w1 + Replacement(n1, m) + (w2 + Replacement(n2, m) + Expand([], m));
      w1 + Replacement(n1, m) + w2 + Replacement(n2, m);
    }
  }

  /**
   * Replacing `${firstName}` and then `${lastName}` in the text
   * `w1 ${firstName} w2 ${lastName}`, with `$`-free values.
   */
  lemma ReplaceTwoPlaceholders(w1: string, n1: string, v1: string, w2: string, n2: string, v2: string)
    requires '$' !in w1 && '$' !in w2 && '$' !in v1 && IsName(n1) && IsName(n2) && n1 != n2
    ensures ReplaceEach(w1 + Expression(n1) + w2 + Expression(n2), [Entry(n1, v1), Entry(n2, v2)])
         == w1 + v1 + w2 + v2
  {
    var s := w1 + Expression(n1) + w2 + Expression(n2);
    var es := [Entry(n1, v1), Entry(n2, v2)];
    assert es[..1] == [Entry(n1, v1)] && [Entry(n1, v1)][..0] == [];
    var once := ReplaceAll(s, Expression(n1), v1);
    assert ReplaceEach(s, es[..1]) == once;
    ReplaceAllIsExpand(s, n1, v1);
    ExpandTwoPlaceholders(w1, n1, w2, n2, map[n1 := v1]);
    assert once == (w1 + v1 + w2) + Expression(n2) + [];
    assert '$' !in w1 + v1 + w2;
    ReplaceAllIsExpand(once, n2, v2);
    ExpandPlainThenPlaceholder(w1 + v1 + w2, n2, [], map[n2 := v2]);
  }

  /** A text without `$` is accepted, and evaluates to itself with no parameters. */
  lemma EvaluatePlain(w: string)
    requires '$' !in w
    ensures HasUniqueExpressions(w)
    ensures EvaluateWith(w, []) == Success(w)
  {
    ScanPlain(w);
  }

  /** TemplateTest.java:26-30: a text without placeholders is accepted and evaluates to itself. */
  lemma TextWithoutExpressions()
    ensures HasUniqueExpressions("My name is Jan Kowalski")
    ensures EvaluateWith("My name is Jan Kowalski", []) == Success("My name is Jan Kowalski")
  {
    TextWithoutExpressionsPlain();
    EvaluatePlain("My name is Jan Kowalski");
  }

  /** TemplateTest.java:32-35: a text with `${firstName}` twice is rejected. */
  lemma RepeatedExpressionRejected()
    ensures !HasUniqueExpressions("My name is ${firstName} ${firstName}")
  {
    var text := "My name is ${firstName} ${firstName}";
    RepeatedExpressionPieces();
    ScanTwoPlaceholders("My name is ", "firstName", " ", "firstName");
    UniqueExpressionsIff(text);
    assert Scan(text)[0].name == Scan(text)[1].name;
  }

  /** The text of TemplateTest.java:24, cut into pieces. */
  lemma TextWithExpressionsPieces()
    ensures "My name is ${firstName} ${lastName}" == "My name is " + Expression("firstName") + " " + Expression("lastName")
  {
  }

  /** The text of TemplateTest.java:23, cut into the pieces of the substitution. */
  lemma TextWithoutExpressionsPieces()
    ensures "My name is Jan Kowalski" == "My name is " + "Jan" + " " + "Kowalski"
  {
  }

  /** The text of TemplateTest.java:34, cut into pieces. */
  lemma RepeatedExpressionPieces()
    ensures "My name is ${firstName} ${firstName}" == "My name is " + Expression("firstName") + " " + Expression("firstName")
  {
  }

  /** The text of TemplateTest.java:23 holds no `$`. */
  lemma TextWithoutExpressionsPlain()
    ensures '$' !in "My name is Jan Kowalski"
  {
    var w := "My name is Jan Kowalski";
    forall i | 0 <= i < |w| ensures w[i] != '$' {
    }
  }

  /** The two-placeholder text of TemplateTest.java:24: two distinct matches. */
  lemma TwoPlaceholderText()
    ensures Scan("My name is ${firstName} ${lastName}") == [Match(11, "firstName"), Match(24, "lastName")]
    ensures HasUniqueExpressions("My name is ${firstName} ${lastName}")
  {
    var text := "My name is ${firstName} ${lastName}";
    TextWithExpressionsPieces();
    ScanTwoPlaceholders("My name is ", "firstName", " ", "lastName");
    UniqueExpressionsIff(text);
  }

  /** Replacing `${lastName}` first and `${firstName}` second gives the same text here. */
  lemma ReplaceEachInOtherOrder(w1: string, n1: string, v1: string, w2: string, n2: string, v2: string)
    requires '$' !in w1 && '$' !in w2 && '$' !in v2 && IsName(n1) && IsName(n2) && n1 != n2
    ensures ReplaceEach(w1 + Expression(n1) + w2 + Expression(n2), [Entry(n2, v2), Entry(n1, v1)])
         == w1 + v1 + w2 + v2
  {
    var s := w1 + Expression(n1) + w2 + Expression(n2);
    var es := [Entry(n2, v2), Entry(n1, v1)];
    assert es[..1] == [Entry(n2, v2)] && [Entry(n2, v2)][..0] == [];
    var once := ReplaceAll(s, Expression(n2), v2);
    assert ReplaceEach(s, es[..1]) == once;
    calc {
      once;
      { ReplaceAllIsExpand(s, n2, v2); }
      Expand(s, map[n2 := v2]);
      { ExpandTwoPlaceholders(w1, n1, w2, n2, map[n2 := v2]); }
      w1 + Expression(n1) + w2 + v2;
      w1 + Expression(n1) + (w2 + v2);
    }
    assert '$' !in w2 + v2;
    calc {
      ReplaceAll(once, Expression(n1), v1);
      { ReplaceAllIsExpand(once, n1, v1); }
      Expand(w1 + Expression(n1) + (w2 + v2), map[n1 := v1]);
      { ExpandPlainThenPlaceholder(w1, n1, w2 + v2, map[n1 := v1]); }
      w1 + v1 + Expand(w2 + v2, map[n1 := v1]);
      { ExpandPlain(w2 + v2, map[n1 := v1]); }
      w1 + v1 + (w2 + v2);
    }
  }

  /** Both entry orders of a two-entry map give the same evaluation on the test text's shape. */
  lemma EvaluateTwoPlaceholders(w1: string, n1: string, v1: string, w2: string, n2: string, v2: string)
    requires '$' !in w1 && '$' !in w2 && IsName(n1) && IsName(n2) && n1 != n2
    requires IsWord(v1) && IsWord(v2)
    ensures EvaluateWith(w1 + Expression(n1) + w2 + Expression(n2), [Entry(n1, v1), Entry(n2, v2)])
         == Success(w1 + v1 + w2 + v2)
    ensures EvaluateWith(w1 + Expression(n1) + w2 + Expression(n2), [Entry(n2, v2), Entry(n1, v1)])
         == Success(w1 + v1 + w2 + v2)
  {
    var s := w1 + Expression(n1) + w2 + Expression(n2);
    ScanTwoPlaceholders(w1, n1, w2, n2);
    ValueCheckIsWord(v1);
    ValueCheckIsWord(v2);
    WordHasNoDollar(v1);
    WordHasNoDollar(v2);
    ReplaceTwoPlaceholders(w1, n1, v1, w2, n2, v2);
    ReplaceEachInOtherOrder(w1, n1, v1, w2, n2, v2);
  }

  /**
   * TemplateTest.java:41-46: both values substituted, in either iteration
   * order of the two-entry map.
   */
  lemma SubstitutesValues()
    ensures EvaluateWith("My name is ${firstName} ${lastName}",
                         [Entry("firstName", "Jan"), Entry("lastName", "Kowalski")])
         == Success("My name is Jan Kowalski")
    ensures EvaluateWith("My name is ${firstName} ${lastName}",
                         [Entry("lastName", "Kowalski"), Entry("firstName", "Jan")])
         == Success("My name is Jan Kowalski")
  {
    TextWithExpressionsPieces();
    TextWithoutExpressionsPieces();
    EvaluateTwoPlaceholders("My name is ", "firstName", "Jan", " ", "lastName", "Kowalski");
  }

  /** TemplateTest.java:48-52: the empty map fails the completeness check. */
  lemma MissingValues()
    ensures EvaluateWith("My name is ${firstName} ${lastName}", []) == Failure(IncompleteParameters)
  {
    TwoPlaceholderText();
  }

  /** A text with two matches and a two-entry map whose first value holds a non-word character. */
  lemma RejectsNonWordValue(text: string, n1: string, v1: string, n2: string, v2: string)
    requires |Scan(text)| == 2 && HasNonWordChar(v1)
    ensures EvaluateWith(text, [Entry(n1, v1), Entry(n2, v2)]) == Failure(InvalidParameterValue)
    ensures EvaluateWith(text, [Entry(n2, v2), Entry(n1, v1)]) == Failure(InvalidParameterValue)
  {
    var es1 := [Entry(n1, v1), Entry(n2, v2)];
    var es2 := [Entry(n2, v2), Entry(n1, v1)];
    assert HasNonWordChar(es1[0].value) && HasNonWordChar(es2[1].value);
  }

  /** The value `@@` of TemplateTest.java:57 holds a non-word character. */
  lemma AtSignsRejected()
    ensures HasNonWordChar("@@")
  {
    assert !IsWordChar("@@"[0]);
  }

  /** TemplateTest.java:54-59: a value `@@` fails the character check, in either order. */
  lemma NonAlphanumericValue()
    ensures EvaluateWith("My name is ${firstName} ${lastName}",
                         [Entry("firstName", "@@"), Entry("lastName", "Kowalski")])
         == Failure(InvalidParameterValue)
    ensures EvaluateWith("My name is ${firstName} ${lastName}",
                         [Entry("lastName", "Kowalski"), Entry("firstName", "@@")])
         == Failure(InvalidParameterValue)
  {
    AtSignsRejected();
    TwoPlaceholderText();
    RejectsNonWordValue("My name is ${firstName} ${lastName}", "firstName", "@@", "lastName", "Kowalski");
  }

  /**
   * The text `${${a}}${b}`: `${a}` is a placeholder nested in a stray `${`
   * and `}`, followed by `${b}`.
   */
  lemma ScanNested(a: string, b: string)
    requires IsName(a) && IsName(b)
    ensures Scan("${" + Expression(a) + "}" + Expression(b)) == [Match(2, a), Match(|a| + 6, b)]
  {
    var s := "${" + Expression(a) + "}" + Expression(b);
    var i1 := |a| + 5;
    var i2 := i1 + 1;
    var i3 := i2 + |b| + 3;
    assert s[2..i1] == Expression(a);
    assert s[i1..i2] == "}";
    assert s[i2..i3] == Expression(b);
    OpenBraceBeforeDollar(s);
    NoPlaceholderWithoutDollar(s, 1);
    ScanFromSkips(s, 0, 2);
    ScanFromAt(s, 2, a, i1);
    ScanPlainThenPlaceholder(s, i1, "}", i2, b, i3);
    assert ScanFrom(s, i3) == [];
  }

  /** A stray `${` directly followed by `$` starts no placeholder. */
  lemma OpenBraceBeforeDollar(s: string)
    requires 3 <= |s| && s[0] == '$' && s[1] == '{' && s[2] == '$'
    ensures LeadingPlaceholder(s[0..]).None?
  {
    assert s[0..] == s;
    assert s[2..][0] == '$' && !IsWordChar('$');
  }

  /** Simultaneous substitution on `${${a}}` followed by `t`. */
  lemma ExpandNested(a: string, t: string, m: map<string, string>)
    requires IsName(a)
    ensures Expand("${" + Expression(a) + t, m) == "${" + Replacement(a, m) + Expand(t, m)
  {
    var s := "${" + Expression(a) + t;
    var rest := "{" + Expression(a) + t;
    NestedShape(a, t);
    OpenBraceBeforeDollar(s);
    ExpandStepNone(s, m);
    ExpandPlainThenPlaceholder("{", a, t, m);
    DollarThenBrace(Replacement(a, m), Expand(t, m));
  }

  /** The text `${${a}…` is `$` followed by `{${a}…`, with `$` at positions 0 and 2. */
  lemma NestedShape(a: string, t: string)
    ensures var s := "${" + Expression(a) + t;
      3 <= |s| && s[0] == '$' && s[1] == '{' && s[2] == '$' && s[0..] == s && s[1..] == "{" + Expression(a) + t
  {
    var s := "${" + Expression(a) + t;
    assert s[2] == Expression(a)[0];
  }

  /** `$` in front of `{…` is the literal `${…`. */
  lemma DollarThenBrace(r: string, u: string)
    ensures ['$'] + ("{" + r + u) == "${" + r + u
  {
  }

  /** Two entries: two `replaceAll` calls, in order. */
  lemma ReplaceEachTwo(s: string, e1: Entry, e2: Entry)
    ensures ReplaceEach(s, [e1, e2])
         == ReplaceAll(ReplaceAll(s, Expression(e1.key), e1.value), Expression(e2.key), e2.value)
  {
    var es := [e1, e2];
    assert es[..1] == [e1] && [e1][..0] == [];
    assert ReplaceEach(s, [e1]) == ReplaceAll(s, Expression(e1.key), e1.value);
  }

  /** Replacing `${a}` by `b` in `${${a}}${b}` turns it into `${b}${b}`. */
  lemma NestedInnerReplaced(a: string, b: string)
    requires IsName(a) && IsName(b) && a != b
    ensures ReplaceAll("${" + Expression(a) + "}" + Expression(b), Expression(a), b) == Expression(b) + Expression(b)
  {
    var s := "${" + Expression(a) + "}" + Expression(b);
    var m := map[a := b];
    assert s == "${" + Expression(a) + ("}" + Expression(b));
    assert Replacement(a, m) == b && Replacement(b, m) == Expression(b);
    calc {
      ReplaceAll(s, Expression(a), b);
      { ReplaceAllIsExpand(s, a, b); }
      Expand(s, m);
      { ExpandNested(a, "}" + Expression(b), m); }
      "${" + b + Expand("}" + Expression(b), m);
      { assert "}" + Expression(b) == "}" + Expression(b) + [];
        ExpandPlainThenPlaceholder("}", b, [], m); }
      "${" + b + ("}" + Expression(b) + Expand([], m));
      Expression(b) + Expression(b);
    }
  }

  /** Replacing `${b}` by `v` in `${b}${b}` gives `vv`. */
  lemma TwiceReplaced(b: string, v: string)
    requires IsName(b)
    ensures ReplaceAll(Expression(b) + Expression(b), Expression(b), v) == v + v
  {
    var n := map[b := v];
    assert Replacement(b, n) == v;
    calc {
      ReplaceAll(Expression(b) + Expression(b), Expression(b), v);
      { ReplaceAllIsExpand(Expression(b) + Expression(b), b, v); }
      Expand(Expression(b) + Expression(b), n);
      { ExpandExpression(b, Expression(b), n); }
      v + Expand(Expression(b), n);
      { assert Expression(b) == Expression(b) + [];
        ExpandExpression(b, [], n); }
      v + (v + Expand([], n));
    }
  }

  /** `${${a}}${b}` with `${a}` replaced by `b` first: a second `${b}` appears and both are replaced. */
  lemma NestedInnerFirst(a: string, b: string, v: string)
    requires IsName(a) && IsName(b) && a != b
    ensures ReplaceEach("${" + Expression(a) + "}" + Expression(b), [Entry(a, b), Entry(b, v)]) == v + v
  {
    ReplaceEachTwo("${" + Expression(a) + "}" + Expression(b), Entry(a, b), Entry(b, v));
    NestedInnerReplaced(a, b);
    TwiceReplaced(b, v);
  }

  /** `${${a}}${b}` with `${b}` replaced first: the `${b}` that `${a}` becomes later stays. */
  lemma NestedOuterFirst(a: string, b: string, v: string)
    requires IsName(a) && IsName(b) && a != b && '$' !in v
    ensures ReplaceEach("${" + Expression(a) + "}" + Expression(b), [Entry(b, v), Entry(a, b)])
         == Expression(b) + v
  {
    var s := "${" + Expression(a) + "}" + Expression(b);
    var n := map[b := v];
    var once := ReplaceAll(s, Expression(b), v);
    assert s == "${" + Expression(a) + ("}" + Expression(b));
    assert Replacement(a, n) == Expression(a) && Replacement(b, n) == v;
    calc {
      once;
      { ReplaceAllIsExpand(s, b, v); }
      Expand(s, n);
      { ExpandNested(a, "}" + Expression(b), n); }
      "${" + Expression(a) + Expand("}" + Expression(b), n);
      { assert "}" + Expression(b) == "}" + Expression(b) + [];
        ExpandPlainThenPlaceholder("}", b, [], n); }
      "${" + Expression(a) + ("}" + v + Expand([], n));
      "${" + Expression(a) + ("}" + v);
    }
    var m := map[a := b];
    assert '$' !in "}" + v;
    calc {
      ReplaceAll(once, Expression(a), b);
      { ReplaceAllIsExpand(once, a, b); }
      Expand("${" + Expression(a) + ("}" + v), m);
      { ExpandNested(a, "}" + v, m); }
      "${" + b + Expand("}" + v, m);
      { ExpandPlain("}" + v, m); }
      "${" + b + ("}" + v);
      Expression(b) + v;
    }
    ReplaceEachTwo(s, Entry(b, v), Entry(a, b));
  }

  /**
   * The text `${${a}}${b}` is accepted, and the two iteration orders of the
   * map {a: b, b: v} pass validation and give different results.
   */
  lemma EvaluateNested(a: string, b: string, v: string)
    requires IsName(a) && IsName(b) && a != b && IsWord(v)
    ensures HasUniqueExpressions("${" + Expression(a) + "}" + Expression(b))
    ensures EvaluateWith("${" + Expression(a) + "}" + Expression(b), [Entry(a, b), Entry(b, v)])
         == Success(v + v)
    ensures EvaluateWith("${" + Expression(a) + "}" + Expression(b), [Entry(b, v), Entry(a, b)])
         == Success(Expression(b) + v)
  {
    var s := "${" + Expression(a) + "}" + Expression(b);
    ScanNested(a, b);
    UniqueExpressionsIff(s);
    ValueCheckIsWord(b);
    ValueCheckIsWord(v);
    WordHasNoDollar(v);
    var es1 := [Entry(a, b), Entry(b, v)];
    var es2 := [Entry(b, v), Entry(a, b)];
    assert !IsNotValid(es1) && !IsNotValid(es2);
    NestedInnerFirst(a, b, v);
    NestedOuterFirst(a, b, v);
  }

  /** The text and results of the order example, cut into pieces. */
  lemma NestedPieces()
    ensures "${${a}}${b}" == "${" + Expression("a") + "}" + Expression("b")
    ensures "ZZ" == "Z" + "Z"
    ensures "${b}Z" == Expression("b") + "Z"
  {
  }

  /** The map {a: b, b: Z} enumerated in either order. */
  lemma NestedMapBothOrders()
    ensures ToMap([Entry("a", "b"), Entry("b", "Z")]) == ToMap([Entry("b", "Z"), Entry("a", "b")])
  {
    ToMapLast([Entry("a", "b"), Entry("b", "Z")]);
    ToMapLast([Entry("b", "Z"), Entry("a", "b")]);
    assert [Entry("a", "b"), Entry("b", "Z")][..1] == [Entry("a", "b")];
    assert [Entry("b", "Z"), Entry("a", "b")][..1] == [Entry("b", "Z")];
  }

  /**
   * Evaluation depends on the iteration order of the parameter map. The text
   * `${${a}}${b}` is accepted and, with the map {a: b, b: Z}, whose values pass
   * the character check, replacing `${a}` first creates a second `${b}`,
   * while replacing `${b}` first does not.
   */
  lemma EvaluateOrderDependent()
    ensures HasUniqueExpressions("${${a}}${b}")
    ensures ToMap([Entry("a", "b"), Entry("b", "Z")]) == ToMap([Entry("b", "Z"), Entry("a", "b")])
    ensures EvaluateWith("${${a}}${b}", [Entry("a", "b"), Entry("b", "Z")]) == Success("ZZ")
    ensures EvaluateWith("${${a}}${b}", [Entry("b", "Z"), Entry("a", "b")]) == Success("${b}Z")
  {
    NestedPieces();
    NestedMapBothOrders();
    EvaluateNested("a", "b", "Z");
  }

  // A stray `$` that stands alone, as in an amount, keeps the entries' order irrelevant.

  /** Plain text without `$` in front of a text does not change whether its stray `$` are lone. */
  lemma {:induction false} SafeDollarsPlain(w: string, t: string)
    requires '$' !in w
    ensures SafeDollars(w + t) == SafeDollars(t)
    decreases |w|
  {
    if w != [] {
      var s := w + t;
      assert s[0] == w[0] != '$';
      assert s[0..] == s;
      NoPlaceholderWithoutDollar(s, 0);
      SafeDollarsStepNone(s);
      assert s[1..] == w[1..] + t;
      assert '$' !in w[1..];
      SafeDollarsPlain(w[1..], t);
    } else {
      assert w + t == t;
    }
  }

  /** A placeholder in front of a text is stepped over. */
  lemma SafeDollarsExpression(n: string, t: string)
    requires IsName(n)
    ensures SafeDollars(Expression(n) + t) == SafeDollars(t)
  {
    var s := Expression(n) + t;
    var j := |n| + 3;
    LeadingPlaceholderIff(s, n);
    SafeDollarsStepMatch(s, n, j);
    assert s[j..] == t;
  }

  /** `$`, then plain text not starting with `{`, then two placeholders with plain text between. */
  lemma LoneDollarText(w1: string, n1: string, w2: string, n2: string)
    requires '$' !in w1 && '$' !in w2 && w1 != [] && w1[0] != '{' && IsName(n1) && IsName(n2)
    ensures SafeDollars(['$'] + w1 + Expression(n1) + w2 + Expression(n2))
  {
    var e1, e2 := Expression(n1), Expression(n2);
    var r := w1 + (e1 + (w2 + (e2 + [])));
    var s := ['$'] + r;
    assert s == ['$'] + w1 + e1 + w2 + e2;
    assert s[0..] == s && s[1..] == r && s[1] == w1[0];
    SafeDollarsStepNone(s);
    SafeDollarsPlain(w1, e1 + (w2 + (e2 + [])));
    SafeDollarsExpression(n1, w2 + (e2 + []));
    SafeDollarsPlain(w2, e2 + []);
    SafeDollarsExpression(n2, []);
  }

  /** A map given by two entries with different keys, enumerated in either order. */
  lemma TwoEntriesBothOrders(n1: string, v1: string, n2: string, v2: string)
    requires n1 != n2
    ensures DistinctKeys([Entry(n1, v1), Entry(n2, v2)]) && DistinctKeys([Entry(n2, v2), Entry(n1, v1)])
    ensures ToMap([Entry(n1, v1), Entry(n2, v2)]) == ToMap([Entry(n2, v2), Entry(n1, v1)])
  {
    var es1, es2 := [Entry(n1, v1), Entry(n2, v2)], [Entry(n2, v2), Entry(n1, v1)];
    ToMapLast(es1);
    ToMapLast(es2);
    assert es1[..1] == [Entry(n1, v1)] && es2[..1] == [Entry(n2, v2)];
    assert ToMap([Entry(n1, v1)]) == map[n1 := v1] by {
      ToMapLast([Entry(n1, v1)]);
      assert [Entry(n1, v1)][..0] == [];
    }
    assert ToMap([Entry(n2, v2)]) == map[n2 := v2] by {
      ToMapLast([Entry(n2, v2)]);
      assert [Entry(n2, v2)][..0] == [];
    }
  }

  /** `$5 ${a} ${b}`: the amount's `$` is lone, so either entry order gives the same outcome. */
  lemma DollarAmountOrderIndependent(v1: string, v2: string)
    ensures SafeDollars("$5 ${a} ${b}")
    ensures EvaluateWith("$5 ${a} ${b}", [Entry("a", v1), Entry("b", v2)])
         == EvaluateWith("$5 ${a} ${b}", [Entry("b", v2), Entry("a", v1)])
  {
    DollarAmountPieces();
    LoneDollarText("5 ", "a", " ", "b");
    TwoEntriesBothOrders("a", v1, "b", v2);
    EvaluateOrderIndependent("$5 ${a} ${b}", [Entry("a", v1), Entry("b", v2)], [Entry("b", v2), Entry("a", v1)]);
  }

  lemma DollarAmountPieces()
    ensures "$5 ${a} ${b}" == ['$'] + "5 " + Expression("a") + " " + Expression("b")
    ensures IsName("a") && IsName("b") && '$' !in "5 " && '$' !in " "
  {
  }

  // A `$` right before a placeholder is not lone: an empty value (which the
  // value check accepts) lets it join the text after the placeholder.

  /** `$` in front of `$` begins no placeholder. */
  lemma DollarBeforeDollar(s: string)
    requires 2 <= |s| && s[0] == '$' && s[1] == '$'
    ensures LeadingPlaceholder(s[0..]).None?
  {
    assert s[0..] == s;
  }

  /** A `$` in front of a placeholder is copied, and the placeholder is treated as one. */
  lemma ExpandDollarBeforePlaceholder(a: string, t: string, m: map<string, string>)
    requires IsName(a)
    ensures Expand(['$'] + Expression(a) + t, m) == ['$'] + Replacement(a, m) + Expand(t, m)
  {
    var e, r, u := Expression(a), Replacement(a, m), Expand(t, m);
    var s := ['$'] + (e + t);
    SeqAssoc(['$'], e, t);
    assert s[1] == e[0] == '$';
    DollarBeforeDollar(s);
    assert s[0..] == s && s[1..] == e + t;
    ExpandStepNone(s, m);
    ExpandExpression(a, t, m);
    SeqAssoc(['$'], r, u);
  }

  /** In `$${a}{b}${b}` the scanner finds `${a}` at 1 and `${b}` at the end. */
  lemma ScanDollarBeforePlaceholder(a: string, b: string)
    requires IsName(a) && IsName(b)
    ensures var w := "{" + b + "}";
      Scan(['$'] + Expression(a) + w + Expression(b)) == [Match(1, a), Match(|a| + |b| + 6, b)]
  {
    var w := "{" + b + "}";
    var s := ['$'] + Expression(a) + w + Expression(b);
    var i1 := |a| + 4;
    var i2 := i1 + |w|;
    var i3 := i2 + |b| + 3;
    assert s[1..i1] == Expression(a);
    assert s[i1..i2] == w;
    assert s[i2..i3] == Expression(b);
    WordHasNoDollar(b);
    assert '$' !in w;
    DollarBeforeDollar(s);
    ScanFromStepNone(s, 0, 1);
    ScanFromAt(s, 1, a, i1);
    ScanPlainThenPlaceholder(s, i1, w, i2, b, i3);
    assert ScanFrom(s, i3) == [];
  }

  /** Plain text and then a placeholder, under simultaneous substitution. */
  lemma ExpandPlainThenExpression(w: string, n: string, m: map<string, string>)
    requires '$' !in w && IsName(n)
    ensures Expand(w + Expression(n), m) == w + Replacement(n, m)
  {
    var e := Expression(n);
    ExpandPlainPrefix(w, e, m);
    assert e == e + [];
    ExpandExpression(n, [], m);
    assert Replacement(n, m) + [] == Replacement(n, m);
  }

  /** `$` and then `{b}` is the placeholder literal `${b}`. */
  lemma DollarJoinsBrace(b: string, x: string)
    ensures ['$'] + [] + ("{" + b + "}" + x) == Expression(b) + x
  {
  }

  /** Emptying `${a}` first turns `$` and `{b}` into a second `${b}`; both are then replaced. */
  lemma EmptyValueFirst(a: string, b: string, v: string)
    requires IsName(a) && IsName(b) && a != b
    ensures var w := "{" + b + "}";
      ReplaceEach(['$'] + Expression(a) + w + Expression(b), [Entry(a, []), Entry(b, v)]) == v + v
  {
    var w := "{" + b + "}";
    var ea, e := Expression(a), Expression(b);
    var s := ['$'] + ea + w + e;
    var m := map[a := []];
    WordHasNoDollar(b);
    assert '$' !in w;
    assert Replacement(a, m) == [] && Replacement(b, m) == e;
    calc {
      ReplaceAll(s, ea, []);
      { ReplaceAllIsExpand(s, a, []); }
      Expand(s, m);
      { SeqAssoc(['$'] + ea, w, e); }
      Expand(['$'] + ea + (w + e), m);
      { ExpandDollarBeforePlaceholder(a, w + e, m); }
      ['$'] + [] + Expand(w + e, m);
      { ExpandPlainThenExpression(w, b, m); }
      ['$'] + [] + (w + e);
      { DollarJoinsBrace(b, e); }
      e + e;
    }
    ReplaceEachTwo(s, Entry(a, []), Entry(b, v));
    TwiceReplaced(b, v);
  }

  /** Replacing `${b}` first leaves the `${b}` that emptying `${a}` builds afterwards. */
  lemma EmptyValueLast(a: string, b: string, v: string)
    requires IsName(a) && IsName(b) && a != b && '$' !in v
    ensures var w := "{" + b + "}";
      ReplaceEach(['$'] + Expression(a) + w + Expression(b), [Entry(b, v), Entry(a, [])])
        == Expression(b) + v
  {
    var w := "{" + b + "}";
    var ea, e := Expression(a), Expression(b);
    var s := ['$'] + ea + w + e;
    var n, m := map[b := v], map[a := []];
    WordHasNoDollar(b);
    assert '$' !in w && '$' !in w + v;
    assert Replacement(a, n) == ea && Replacement(b, n) == v;
    assert Replacement(a, m) == [];
    var s2 := ['$'] + ea + (w + v);
    calc {
      ReplaceAll(s, e, v);
      { ReplaceAllIsExpand(s, b, v); }
      Expand(s, n);
      { SeqAssoc(['$'] + ea, w, e); }
      Expand(['$'] + ea + (w + e), n);
      { ExpandDollarBeforePlaceholder(a, w + e, n); }
      ['$'] + ea + Expand(w + e, n);
      { ExpandPlainThenExpression(w, b, n); }
      s2;
    }
    calc {
      ReplaceAll(s2, ea, []);
      { ReplaceAllIsExpand(s2, a, []); }
      Expand(s2, m);
      { ExpandDollarBeforePlaceholder(a, w + v, m); }
      ['$'] + [] + Expand(w + v, m);
      { ExpandPlain(w + v, m); }
      ['$'] + [] + (w + v);
      { DollarJoinsBrace(b, v); }
      e + v;
    }
    ReplaceEachTwo(s, Entry(b, v), Entry(a, []));
  }

  /**
   * `$${a}{b}${b}` with an empty value for `a`: every `${` of the text begins
   * a placeholder, the text is accepted, both orders pass validation, and
   * the results differ.
   */
  lemma EvaluateEmptyValue(a: string, b: string, v: string)
    requires IsName(a) && IsName(b) && a != b && IsWord(v)
    ensures var s := ['$'] + Expression(a) + "{" + b + "}" + Expression(b);
      HasUniqueExpressions(s) &&
      EvaluateWith(s, [Entry(a, []), Entry(b, v)]) == Success(v + v) &&
      EvaluateWith(s, [Entry(b, v), Entry(a, [])]) == Success(Expression(b) + v)
  {
    var w := "{" + b + "}";
    var s := ['$'] + Expression(a) + w + Expression(b);
    assert s == ['$'] + Expression(a) + "{" + b + "}" + Expression(b);
    ScanDollarBeforePlaceholder(a, b);
    UniqueExpressionsIff(s);
    ValueCheckIsWord([]);
    ValueCheckIsWord(v);
    WordHasNoDollar(v);
    var es1 := [Entry(a, []), Entry(b, v)];
    var es2 := [Entry(b, v), Entry(a, [])];
    assert !IsNotValid(es1) && !IsNotValid(es2);
    EmptyValueFirst(a, b, v);
    EmptyValueLast(a, b, v);
  }

  /** Every `${` of `$${a}{b}${b}` begins a placeholder: the only other `$` is followed by `$`. */
  lemma EmptyValueTextOpenings(a: string, b: string)
    requires IsName(a) && IsName(b)
    ensures var s := ['$'] + Expression(a) + "{" + b + "}" + Expression(b);
      forall p :: 0 <= p < |s| - 1 && s[p] == '$' && s[p + 1] == '{' ==> LeadingPlaceholder(s[p..]).Some?
  {
    var w := "{" + b + "}";
    var ea, e := Expression(a), Expression(b);
    var s := ['$'] + ea + w + e;
    assert s == ['$'] + Expression(a) + "{" + b + "}" + Expression(b);
    var i1 := |a| + 4;
    var i2 := i1 + |w|;
    assert s[1..i1] == ea && s[i1..i2] == w && s[i2..] == e;
    WordHasNoDollar(b);
    forall p | 0 <= p < |s| - 1 && s[p] == '$' && s[p + 1] == '{' ensures LeadingPlaceholder(s[p..]).Some? {
      if p == 1 || p == i2 {
        var n := if p == 1 then a else b;
        assert OccursAt(s, p, n);
        PrefixIsOccurrence(s, p, n);
        LeadingPlaceholderIff(s[p..], n);
      } else if p == 0 {
        assert false;
      } else if p < i1 {
        assert s[p] == ea[p - 1];
        NoDollarInside(a, p - 1);
        assert false;
      } else if p < i2 {
        assert false;
      } else {
        assert s[p] == e[p - i2];
        NoDollarInside(b, p - i2);
        assert false;
      }
    }
  }

  lemma EmptyValuePieces()
    ensures "$${a}{b}${b}" == ['$'] + Expression("a") + "{" + "b" + "}" + Expression("b")
    ensures "ZZ" == "Z" + "Z"
    ensures "${b}Z" == Expression("b") + "Z"
  {
  }

  /**
   * Requiring only that every `${` begin a placeholder would not be enough
   * for order independence: `$${a}{b}${b}` with `a` mapped to the empty
   * value and `b` to `Z` gives `ZZ` in one order and `${b}Z` in the other.
   */
  lemma EmptyValueOrderDependent()
    ensures HasUniqueExpressions("$${a}{b}${b}")
    ensures ToMap([Entry("a", ""), Entry("b", "Z")]) == ToMap([Entry("b", "Z"), Entry("a", "")])
    ensures EvaluateWith("$${a}{b}${b}", [Entry("a", ""), Entry("b", "Z")]) == Success("ZZ")
    ensures EvaluateWith("$${a}{b}${b}", [Entry("b", "Z"), Entry("a", "")]) == Success("${b}Z")
    ensures forall p :: 0 <= p < |"$${a}{b}${b}"| - 1 && "$${a}{b}${b}"[p] == '$' && "$${a}{b}${b}"[p + 1] == '{'
              ==> LeadingPlaceholder("$${a}{b}${b}"[p..]).Some?
  {
    EmptyValuePieces();
    TwoEntriesBothOrders("a", "", "b", "Z");
    EvaluateEmptyValue("a", "b", "Z");
    EmptyValueTextOpenings("a", "b");
  }
}
