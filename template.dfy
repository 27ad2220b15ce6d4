/**
 * The Template class of Template.java: a text fixed at construction, checked
 * once for duplicate placeholder literals, then evaluated any number of times
 * against a parameter map.
 */
module Templates {
  import opened Wrappers
  import opened Scanner
  import opened Substitution

  /**
   * The three ways construction or evaluation fails. The source throws the
   * same IllegalArgumentException for all of them.
   */
  datatype Error = MalformedTemplate | IncompleteParameters | InvalidParameterValue

  /** The literal text of each match, `MatchResult::group`, in scan order. */
  function Literals(ms: seq<Match>): (ls: seq<string>)
    ensures |ls| == |ms|
    ensures forall i :: 0 <= i < |ms| ==> ls[i] == Expression(ms[i].name)
  {
    if ms == [] then [] else [Expression(ms[0].name)] + Literals(ms[1..])
  }

  /** getUniqueExpressionsCount: how many distinct placeholder literals `text` holds. */
  function UniqueExpressionsCount(text: string): nat {
    |set l | l in Literals(Scan(text))|
  }

  /** validateTemplateText passes: as many distinct literals as matches. */
  predicate HasUniqueExpressions(text: string) {
    UniqueExpressionsCount(text) == |Scan(text)|
  }

  /** A sequence has as many distinct elements as positions iff no element repeats. */
  lemma {:induction false} DistinctIffSetSize(xs: seq<string>)
    ensures |set x | x in xs| <= |xs|
    ensures |set x | x in xs| == |xs| <==> forall j, k :: 0 <= j < k < |xs| ==> xs[j] != xs[k]
  {
    if xs != [] {
      var t := xs[1..];
      DistinctIffSetSize(t);
      assert (set x | x in xs) == {xs[0]} + (set x | x in t);
      if xs[0] in t {
        var k :| 0 <= k < |t| && t[k] == xs[0];
        assert xs[k + 1] == xs[0];
      } else {
        assert forall j, k :: 0 <= j < k < |t| ==> t[j] == xs[j + 1] && t[k] == xs[k + 1];
      }
    }
  }

  /** Two placeholder literals are equal exactly when their names are. */
  lemma ExpressionInjective(a: string, b: string)
    ensures Expression(a) == Expression(b) <==> a == b
  {
    if Expression(a) == Expression(b) {
      assert a == Expression(a)[2..|a| + 2];
    }
  }

  /**
   * Construction succeeds iff no two matches of the text have the same name:
   * comparing the size of the set of literals with the number of matches is
   * the same as asking that the literals be pairwise distinct.
   */
  lemma UniqueExpressionsIff(text: string)
    ensures HasUniqueExpressions(text) <==>
              forall j, k :: 0 <= j < k < |Scan(text)| ==> Scan(text)[j].name != Scan(text)[k].name
  {
    var ms := Scan(text);
    var ls := Literals(ms);
    DistinctIffSetSize(ls);
    forall j, k | 0 <= j < k < |ms| ensures ls[j] == ls[k] <==> ms[j].name == ms[k].name {
      ExpressionInjective(ms[j].name, ms[k].name);
    }
  }

  /** isIncomplete: the number of parameters differs from the number of matches. */
  predicate IsIncomplete(text: string, parameters: seq<Entry>) {
    |parameters| != |Scan(text)|
  }

  /**
   * A value is rejected when it contains a non-word character. (Java's
   * `value.matches(".*\\W+.*")` also lets through some values that hold line
   * terminators, since `.` does not match them; that is not modelled.)
   */
  predicate HasNonWordChar(value: string) {
    exists i :: 0 <= i < |value| && !IsWordChar(value[i])
  }

  /** isNotValid: some value contains a non-word character. Keys are never inspected. */
  predicate IsNotValid(parameters: seq<Entry>) {
    exists i :: 0 <= i < |parameters| && HasNonWordChar(parameters[i].value)
  }

  /** validate: completeness is tested before the value characters. */
  function Validate(text: string, parameters: seq<Entry>): Option<Error> {
    if IsIncomplete(text, parameters) then Some(IncompleteParameters)
    else if IsNotValid(parameters) then Some(InvalidParameterValue)
    else None
  }

  /** What evaluate returns for a parameter map whose entry set iterates as `parameters`. */
  function EvaluateWith(text: string, parameters: seq<Entry>): Result<string, Error> {
    match Validate(text, parameters)
    case Some(e) => Failure(e)
    case None => Success(ReplaceEach(text, parameters))
  }

  /** A value passes the character check exactly when it is a word. */
  lemma ValueCheckIsWord(value: string)
    ensures !HasNonWordChar(value) <==> IsWord(value)
  {
  }

  /**
   * A text without placeholders evaluates to itself with the empty map, and
   * with any other map fails the completeness check.
   */
  lemma EvaluateWithoutPlaceholders(text: string, parameters: seq<Entry>)
    requires Scan(text) == []
    ensures EvaluateWith(text, []) == Success(text)
    ensures parameters != [] ==> EvaluateWith(text, parameters) == Failure(IncompleteParameters)
  {
  }

  /**
   * Evaluation fails with IncompleteParameters whenever the number of
   * parameters is not the number of matches, whatever the keys; with the
   * right number it fails with InvalidParameterValue exactly when a value
   * holds a non-word character.
   */
  lemma EvaluateFailures(text: string, parameters: seq<Entry>)
    ensures |parameters| != |Scan(text)| ==> EvaluateWith(text, parameters) == Failure(IncompleteParameters)
    ensures |parameters| == |Scan(text)| ==>
              (EvaluateWith(text, parameters) == Failure(InvalidParameterValue) <==>
               exists i :: 0 <= i < |parameters| && HasNonWordChar(parameters[i].value))
    ensures EvaluateWith(text, parameters).Failure? ==> EvaluateWith(text, parameters).error != MalformedTemplate
  {
  }

  /**
   * Keys that name no placeholder literal of the text are ignored: if no
   * parameter's `${key}` occurs in the text, a successful evaluation returns
   * the text unchanged.
   */
  lemma EvaluateIgnoresUnusedKeys(text: string, parameters: seq<Entry>)
    requires forall i, p :: 0 <= i < |parameters| && 0 <= p < |text| ==> !(Expression(parameters[i].key) <= text[p..])
    ensures EvaluateWith(text, parameters).Success? ==> EvaluateWith(text, parameters).value == text
  {
    ReplaceEachUnusedKeys(text, parameters);
  }

  /**
   * On a text whose stray `$` are all lone, with placeholder names
   * as keys, a successful evaluation replaces each placeholder named by a key
   * with that key's value and copies everything else.
   */
  lemma EvaluateSubstitutes(text: string, parameters: seq<Entry>)
    requires SafeDollars(text)
    requires DistinctKeys(parameters)
    requires forall i :: 0 <= i < |parameters| ==> IsName(parameters[i].key)
    ensures EvaluateWith(text, parameters).Success? ==>
              EvaluateWith(text, parameters).value == Expand(text, ToMap(parameters))
  {
    if EvaluateWith(text, parameters).Success? {
      forall i | 0 <= i < |parameters| ensures IsWord(parameters[i].value) {
        ValueCheckIsWord(parameters[i].value);
      }
      ReplaceEachIsExpand(text, parameters);
    }
  }

  /** Two enumerations of one map hold the same values, so the value check agrees on them. */
  lemma SameMapSameValueCheck(es1: seq<Entry>, es2: seq<Entry>)
    requires DistinctKeys(es1) && DistinctKeys(es2) && ToMap(es1) == ToMap(es2)
    ensures IsNotValid(es1) ==> IsNotValid(es2)
  {
    if IsNotValid(es1) {
      var i :| 0 <= i < |es1| && HasNonWordChar(es1[i].value);
      var k := es1[i].key;
      ToMapValueAt(es1, i);
      var j :| 0 <= j < |es2| && es2[j] == Entry(k, ToMap(es2)[k]);
      assert HasNonWordChar(es2[j].value);
    }
  }

  /**
   * On a text whose stray `$` are all lone, with placeholder names
   * as keys, the iteration order of the parameter map does not change what
   * evaluate returns.
   */
  lemma EvaluateOrderIndependent(text: string, es1: seq<Entry>, es2: seq<Entry>)
    requires SafeDollars(text)
    requires DistinctKeys(es1) && DistinctKeys(es2) && ToMap(es1) == ToMap(es2)
    requires forall i :: 0 <= i < |es1| ==> IsName(es1[i].key)
    requires forall i :: 0 <= i < |es2| ==> IsName(es2[i].key)
    ensures EvaluateWith(text, es1) == EvaluateWith(text, es2)
  {
    ToMapSize(es1);
    ToMapSize(es2);
    SameMapSameValueCheck(es1, es2);
    SameMapSameValueCheck(es2, es1);
    EvaluateSubstitutes(text, es1);
    EvaluateSubstitutes(text, es2);
  }

  class Template {
    const text: string

    /** The invariant every constructed template keeps: no placeholder literal twice. */
    ghost predicate Valid() {
      HasUniqueExpressions(text)
    }

    /** Stores the text; only texts without duplicate literals can be stored. */
    constructor (text: string)
      requires HasUniqueExpressions(text)
      ensures this.text == text && Valid()
    {
      this.text := text;
    }

    /**
     * What the construction check leaves behind: no two matches of the text
     * share a name.
     */
    lemma DistinctPlaceholders()
      requires Valid()
      ensures forall j, k :: 0 <= j < k < |Scan(text)| ==> Scan(text)[j].name != Scan(text)[k].name
    {
      UniqueExpressionsIff(text);
    }

    /** `new Template(text)`: fails, as the Java constructor throws, when a literal repeats. */
    static method New(text: string) returns (r: Result<Template, Error>)
      ensures r.Failure? <==> !HasUniqueExpressions(text)
      ensures r.Failure? ==> r.error == MalformedTemplate
      ensures r.Success? ==> fresh(r.value) && r.value.text == text && r.value.Valid()
    {
      if UniqueExpressionsCount(text) != |Scan(text)| {
        return Failure(MalformedTemplate);
      }
      var t := new Template(text);
      return Success(t);
    }

    /**
     * evaluate: validate the parameters, then substitute. `parameters` is the
     * entry set of the Java map in its iteration order.
     */
    method Evaluate(parameters: seq<Entry>) returns (r: Result<string, Error>)
      requires DistinctKeys(parameters)
      ensures r == EvaluateWith(text, parameters)
      ensures r.Failure? <==> |parameters| != |Scan(text)| || IsNotValid(parameters)
    {
      var error := Validate(text, parameters);
      if error.Some? {
        return Failure(error.value);
      }
      var result := Substitute(parameters);
      return Success(result);
    }

    /** substitute: one `replaceAll` per entry, in iteration order. */
    method Substitute(parameters: seq<Entry>) returns (result: string)
      ensures result == ReplaceEach(text, parameters)
    {
      result := text;
      for i := 0 to |parameters|
        invariant result == ReplaceEach(text, parameters[..i])
      {
        assert parameters[..i + 1][..i] == parameters[..i];
        var expression := Expression(parameters[i].key);
        result := ReplaceAll(result, expression, parameters[i].value);
      }
      assert parameters[..|parameters|] == parameters;
    }
  }
}
