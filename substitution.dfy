/**
 * Substitution in Template.java: for every parameter entry, in the map's
 * iteration order, `replaceAll` of the entry's expression `${key}` by its value.
 * Beside it, a reference definition that replaces all placeholders at once,
 * and the conditions under which the two agree.
 */
module Substitution {
  import opened Wrappers
  import opened Scanner

  /** One entry of the parameter map. */
  datatype Entry = Entry(key: string, value: string)

  /** Entries of a map: no key appears twice. */
  predicate DistinctKeys(es: seq<Entry>) {
    forall i, j :: 0 <= i < j < |es| ==> es[i].key != es[j].key
  }

  /** The map whose entry set, in iteration order, is `es`. */
  function ToMap(es: seq<Entry>): (r: map<string, string>)
    ensures forall e :: e in es ==> e.key in r
    ensures forall k :: k in r ==> Entry(k, r[k]) in es
  {
    if es == [] then map[]
    else
      var last := es[|es| - 1];
      assert es == es[..|es| - 1] + [last];
      ToMap(es[..|es| - 1])[last.key := last.value]
  }

  /** A map has as many entries as the sequence that enumerates it. */
  lemma {:induction false} ToMapSize(es: seq<Entry>)
    requires DistinctKeys(es)
    ensures |ToMap(es)| == |es|
  {
    if es != [] {
      var pre := es[..|es| - 1];
      var last := es[|es| - 1];
      ToMapLast(es);
      ToMapSize(pre);
    }
  }

  /**
   * `String.replaceAll` with a pattern that matches `pat` literally: the
   * occurrences of `pat` are found left to right, each search resuming after
   * the previous occurrence, and each is replaced by `v`.
   */
  function ReplaceAll(s: string, pat: string, v: string): string
    requires pat != []
    decreases |s|
  {
    if |s| < |pat| then s
    else if pat <= s then v + ReplaceAll(s[|pat|..], pat, v)
    else [s[0]] + ReplaceAll(s[1..], pat, v)
  }

  /** An occurrence of `pat` at the front is replaced, and the search resumes after it. */
  lemma ReplaceAllStepHit(s: string, pat: string, v: string, t: string)
    requires pat != [] && pat <= s && t == s[|pat|..]
    ensures ReplaceAll(s, pat, v) == v + ReplaceAll(t, pat, v)
  {
  }

  /** A front character that does not start `pat` is copied. */
  lemma ReplaceAllStepMiss(s: string, pat: string, v: string)
    requires pat != [] && s != [] && !(pat <= s)
    ensures ReplaceAll(s, pat, v) == [s[0]] + ReplaceAll(s[1..], pat, v)
  {
    if |s| < |pat| {
      assert ReplaceAll(s[1..], pat, v) == s[1..];
      assert s == [s[0]] + s[1..];
    }
  }

  /** Positions before `j` that do not start `pat` are copied unchanged. */
  lemma {:induction false} ReplaceAllSkip(s: string, pat: string, v: string, j: nat)
    requires pat != [] && j <= |s|
    requires forall i :: 0 <= i < j ==> !(pat <= s[i..])
    ensures ReplaceAll(s, pat, v) == s[..j] + ReplaceAll(s[j..], pat, v)
    decreases j
  {
    if j == 0 {
      assert s[..0] + s[0..] == s;
    } else {
      var t := s[1..];
      assert s[0..] == s;
      NoMatchInTail(s, pat, j);
      TailSlices(s, j);
      var r := ReplaceAll(s[j..], pat, v);
      calc {
        ReplaceAll(s, pat, v);
        { ReplaceAllStepMiss(s, pat, v); }
        [s[0]] + ReplaceAll(t, pat, v);
        { ReplaceAllSkip(t, pat, v, j - 1); }
        [s[0]] + (t[..j - 1] + r);
        { SeqAssoc([s[0]], t[..j - 1], r); }
        s[..j] + r;
      }
    }
  }

  /** Concatenation is associative (kept apart so no proof mixes it with unfolding). */
  lemma SeqAssoc(a: string, b: string, c: string)
    ensures a + b + c == a + (b + c)
  {
  }

  lemma NoMatchInTail(s: string, pat: string, j: nat)
    requires 0 < j <= |s|
    requires forall i :: 0 <= i < j ==> !(pat <= s[i..])
    ensures forall i :: 0 <= i < j - 1 ==> !(pat <= s[1..][i..])
  {
    forall i | 0 <= i < j - 1 ensures !(pat <= s[1..][i..]) {
      assert s[1..][i..] == s[i + 1..];
    }
  }

  lemma TailSlices(s: string, j: nat)
    requires 0 < j <= |s|
    ensures s[1..][j - 1..] == s[j..] && [s[0]] + s[1..][..j - 1] == s[..j]
  {
  }

  /** A text in which `pat` does not occur is left unchanged. */
  lemma ReplaceAllAbsent(s: string, pat: string, v: string)
    requires pat != []
    requires forall i :: 0 <= i < |s| ==> !(pat <= s[i..])
    ensures ReplaceAll(s, pat, v) == s
  {
    ReplaceAllSkip(s, pat, v, |s|);
    assert s[..|s|] == s;
  }

  /**
   * The loop of `substitute`: starting from `s`, each entry in turn replaces
   * every occurrence of `${key}` in the current text by its value.
   */
  function ReplaceEach(s: string, es: seq<Entry>): string {
    if es == [] then s
    else
      var last := es[|es| - 1];
      ReplaceAll(ReplaceEach(s, es[..|es| - 1]), Expression(last.key), last.value)
  }

  /** What `${name}` becomes under simultaneous substitution with `m`. */
  function Replacement(name: string, m: map<string, string>): string {
    if name in m then m[name] else Expression(name)
  }

  /**
   * Reference substitution: the placeholders of `s`, delimited as the scanner
   * delimits them, are each replaced by the value of their name in `m`, all
   * at once; placeholders whose name is not a key and all other characters
   * are copied.
   */
  function Expand(s: string, m: map<string, string>): string
    decreases |s|
  {
    if s == [] then []
    else match LeadingPlaceholder(s)
      case Some(name) =>
        Replacement(name, m) + Expand(s[|name| + 3..], m)
      case None =>
        [s[0]] + Expand(s[1..], m)
  }

  /** One step of the expansion when `s` starts with a placeholder, in the terms of the definition. */
  lemma ExpandUnfold(s: string, m: map<string, string>)
    requires LeadingPlaceholder(s).Some?
    ensures Expand(s, m)
         == Replacement(LeadingPlaceholder(s).value, m) + Expand(s[|LeadingPlaceholder(s).value| + 3..], m)
  {
  }

  /** One step of the expansion when `s` starts with a placeholder named `name` that ends at `j`. */
  lemma ExpandStepMatch(s: string, name: string, j: nat, m: map<string, string>)
    requires LeadingPlaceholder(s) == Some(name) && j == |name| + 3
    ensures j <= |s|
    ensures Expand(s, m) == Replacement(name, m) + Expand(s[j..], m)
  {
    ExpandUnfold(s, m);
  }

  /** One step of the expansion when `s` starts with no placeholder. */
  lemma ExpandStepNone(s: string, m: map<string, string>)
    requires s != [] && LeadingPlaceholder(s).None?
    ensures Expand(s, m) == [s[0]] + Expand(s[1..], m)
  {
  }

  /** Characters other than `$` in front of a text are copied and do not disturb its placeholders. */
  lemma {:induction false} ExpandPlainPrefix(w: string, t: string, m: map<string, string>)
    requires '$' !in w
    ensures Expand(w + t, m) == w + Expand(t, m)
    decreases |w|
  {
    if w != [] {
      var s := w + t;
      assert s[0] == w[0] != '$';
      NoPlaceholderWithoutDollar(s, 0);
      assert s[0..] == s;
      ExpandStepNone(s, m);
      assert s[1..] == w[1..] + t;
      assert '$' !in w[1..];
      ExpandPlainPrefix(w[1..], t, m);
      calc {
        Expand(s, m);
        [w[0]] + (w[1..] + Expand(t, m));
        { assert w == [w[0]] + w[1..]; }
        w + Expand(t, m);
      }
    } else {
      assert w + t == t;
    }
  }

  /** A placeholder literal in front of a text is treated as one placeholder. */
  lemma ExpandExpression(n: string, t: string, m: map<string, string>)
    requires IsName(n)
    ensures Expand(Expression(n) + t, m) == Replacement(n, m) + Expand(t, m)
  {
    var s := Expression(n) + t;
    var j := |n| + 3;
    LeadingPlaceholderIff(s, n);
    ExpandStepMatch(s, n, j, m);
    assert s[j..] == t;
  }

  /** With no keys, substitution leaves the text unchanged. */
  lemma {:induction false} ExpandNoKeys(s: string)
    ensures Expand(s, map[]) == s
    decreases |s|
  {
    if s != [] {
      match LeadingPlaceholder(s)
      case Some(name) =>
        var j := |name| + 3;
        var t := s[j..];
        ExpandStepMatch(s, name, j, map[]);
        LeadingPlaceholderSound(s);
        ExpandNoKeys(t);
        assert s == s[..j] + t;
      case None =>
        var t := s[1..];
        ExpandStepNone(s, map[]);
        ExpandNoKeys(t);
        assert s == [s[0]] + t;
    }
  }

  /**
   * One `replaceAll` of `${k}` replaces exactly the placeholders named `k`
   * that the scanner finds, and copies everything else.
   */
  lemma {:induction false} ReplaceAllIsExpand(s: string, k: string, v: string)
    requires IsName(k)
    ensures ReplaceAll(s, Expression(k), v) == Expand(s, map[k := v])
    decreases |s|
  {
    var pat, m := Expression(k), map[k := v];
    if s != [] {
      LeadingPlaceholderIff(s, k);
      match LeadingPlaceholder(s)
      case Some(name) =>
        var j := |name| + 3;
        var t := s[j..];
        ExpandStepMatch(s, name, j, m);
        if name == k {
          ReplaceAllStepHit(s, pat, v, t);
        } else {
          ReplaceAllSkipsPlaceholder(s, name, k, v, j);
        }
        ReplaceAllIsExpand(t, k, v);
      case None =>
        ExpandStepNone(s, m);
        ReplaceAllStepMiss(s, pat, v);
        ReplaceAllIsExpand(s[1..], k, v);
    }
  }

  /** A placeholder with another name, ending at `j`, is copied whole by `replaceAll` of `${k}`. */
  lemma ReplaceAllSkipsPlaceholder(s: string, name: string, k: string, v: string, j: nat)
    requires IsName(k) && LeadingPlaceholder(s) == Some(name) && name != k && j == |name| + 3
    ensures ReplaceAll(s, Expression(k), v) == Expression(name) + ReplaceAll(s[j..], Expression(k), v)
  {
    var pat := Expression(k);
    var e := Expression(name);
    LeadingPlaceholderSound(s);
    LeadingPlaceholderIff(s, k);
    assert s[..j] == e;
    forall i | 0 <= i < j ensures !(pat <= s[i..]) {
      if 0 < i {
        NoDollarInside(name, i);
        assert s[i..][0] == e[i];
      }
    }
    ReplaceAllSkip(s, pat, v, j);
  }

  /**
   * A `$` at `p` that cannot join what comes after it: it is not a `$`, or it
   * is the last character, or the next character is neither `{` nor `$`.
   */
  predicate LoneDollarAt(s: string, p: nat)
    requires p < |s|
  {
    s[p] == '$' ==> p + 1 == |s| || (s[p + 1] != '{' && s[p + 1] != '$')
  }

  /**
   * Every `$` that does not begin a placeholder is lone (`$5`, `costs $`).
   * Stated as a walk over the text in the scanner's steps;
   * EveryStrayDollarSafe below says the same position by position.
   */
  predicate SafeDollars(s: string)
    decreases |s|
  {
    s == [] ||
    match LeadingPlaceholder(s)
    case Some(name) => SafeDollars(s[|name| + 3..])
    case None => LoneDollarAt(s, 0) && SafeDollars(s[1..])
  }

  ghost predicate EveryStrayDollarSafe(s: string) {
    forall p :: 0 <= p < |s| && LeadingPlaceholder(s[p..]).None? ==> LoneDollarAt(s, p)
  }

  lemma SafeDollarsUnfold(s: string)
    requires s != []
    ensures SafeDollars(s) ==
      match LeadingPlaceholder(s)
      case Some(name) => SafeDollars(s[|name| + 3..])
      case None => LoneDollarAt(s, 0) && SafeDollars(s[1..])
  {
  }

  /** The walk steps over a placeholder ending at `j`. */
  lemma SafeDollarsStepMatch(s: string, name: string, j: nat)
    requires LeadingPlaceholder(s) == Some(name) && j == |name| + 3
    ensures j <= |s| && SafeDollars(s) == SafeDollars(s[j..])
  {
    SafeDollarsUnfold(s);
  }

  /** The walk steps over one character that does not begin a placeholder. */
  lemma SafeDollarsStepNone(s: string)
    requires s != [] && LeadingPlaceholder(s).None?
    ensures SafeDollars(s) == (LoneDollarAt(s, 0) && SafeDollars(s[1..]))
  {
    SafeDollarsUnfold(s);
  }

  /** The walk and the position-by-position reading of "every stray `$` is lone" agree. */
  lemma {:induction false} SafeDollarsIff(s: string)
    ensures SafeDollars(s) <==> EveryStrayDollarSafe(s)
    decreases |s|
  {
    if s != [] {
      assert s[0..] == s;
      match LeadingPlaceholder(s)
      case Some(name) =>
        var j := |name| + 3;
        SafeDollarsStepMatch(s, name, j);
        LeadingPlaceholderSound(s);
        forall p | 0 < p < j ensures s[p] != '$' {
          assert s[..j] == Expression(name);
          NoDollarInside(name, p);
        }
        DollarCheckSuffix(s, j);
        SafeDollarsIff(s[j..]);
      case None =>
        SafeDollarsStepNone(s);
        DollarCheckSuffix(s, 1);
        SafeDollarsIff(s[1..]);
    }
  }

  /** Once the first `j` positions are known to be fine, only the rest matters. */
  lemma DollarCheckSuffix(s: string, j: nat)
    requires j <= |s|
    requires forall p :: 0 < p < j ==> s[p] != '$'
    ensures (EveryStrayDollarSafe(s) && j > 0) ==> EveryStrayDollarSafe(s[j..])
    ensures (EveryStrayDollarSafe(s[j..]) && (j > 0 && LeadingPlaceholder(s).None? ==> LoneDollarAt(s, 0)))
              ==> EveryStrayDollarSafe(s)
  {
    var t := s[j..];
    if EveryStrayDollarSafe(s) && j > 0 {
      forall p | 0 <= p < |t| && LeadingPlaceholder(t[p..]).None? ensures LoneDollarAt(t, p) {
        SuffixPosition(s, j, p);
      }
    }
    if EveryStrayDollarSafe(t) && (j > 0 && LeadingPlaceholder(s).None? ==> LoneDollarAt(s, 0)) {
      forall p | 0 <= p < |s| && LeadingPlaceholder(s[p..]).None? ensures LoneDollarAt(s, p) {
        if j <= p {
          SuffixPosition(s, j, p - j);
        } else if p == 0 {
          assert s[0..] == s;
        }
      }
    }
  }

  /** Position `p` of the suffix from `j` is position `j + p` of the text. */
  lemma SuffixPosition(s: string, j: nat, p: nat)
    requires j + p < |s|
    ensures s[j..][p..] == s[j + p..]
    ensures LoneDollarAt(s[j..], p) <==> LoneDollarAt(s, j + p)
  {
  }

  /** A lone `$` in front of a text is copied, and does not join the text into a placeholder. */
  lemma ExpandLoneDollar(u: string, m: map<string, string>)
    requires u == [] || u[0] != '{'
    ensures Expand(['$'] + u, m) == ['$'] + Expand(u, m)
  {
    var s := ['$'] + u;
    assert s[1..] == u;
    ExpandStepNone(s, m);
  }

  /** A text that does not start with `$` keeps its first character under substitution. */
  lemma ExpandKeepsFirst(t: string, m: map<string, string>)
    requires t != [] && t[0] != '$'
    ensures Expand(t, m) != [] && Expand(t, m)[0] == t[0]
  {
    assert t[0..] == t;
    NoPlaceholderWithoutDollar(t, 0);
    ExpandStepNone(t, m);
  }

  /**
   * On a text whose stray `$` are all lone, substituting word values for
   * some keys and then substituting for other keys is one substitution for
   * all of them: the values put in by the first step never form new
   * placeholders.
   */
  lemma {:induction false} ExpandCompose(s: string, m1: map<string, string>, m2: map<string, string>)
    requires SafeDollars(s)
    requires m1.Keys !! m2.Keys
    requires forall k :: k in m1 ==> IsWord(m1[k])
    ensures Expand(Expand(s, m1), m2) == Expand(s, m1 + m2)
    decreases |s|
  {
    var m := m1 + m2;
    if s != [] {
      match LeadingPlaceholder(s)
      case Some(name) =>
        var j := |name| + 3;
        var t := s[j..];
        SafeDollarsStepMatch(s, name, j);
        LeadingPlaceholderSound(s);
        ExpandStepMatch(s, name, j, m1);
        ExpandStepMatch(s, name, j, m);
        ExpandCompose(t, m1, m2);
        var u := Expand(t, m1);
        if name in m1 {
          WordHasNoDollar(m1[name]);
          ExpandPlainPrefix(m1[name], u, m2);
        } else {
          ExpandExpression(name, u, m2);
        }
      case None =>
        var t := s[1..];
        SafeDollarsStepNone(s);
        ExpandStepNone(s, m1);
        ExpandStepNone(s, m);
        ExpandCompose(t, m1, m2);
        var u := Expand(t, m1);
        if s[0] == '$' {
          if t != [] {
            ExpandKeepsFirst(t, m1);
          }
          ExpandLoneDollar(u, m2);
        } else {
          ExpandPlainPrefix([s[0]], u, m2);
        }
    }
  }

  lemma WordHasNoDollar(w: string)
    requires IsWord(w)
    ensures '$' !in w
  {
  }

  /** Keys are placeholder names and values are words, as `evaluate` checks for values. */
  predicate WordEntries(es: seq<Entry>) {
    forall i :: 0 <= i < |es| ==> IsName(es[i].key) && IsWord(es[i].value)
  }

  /**
   * On a text whose stray `$` are all lone, the loop of `substitute` computes the
   * reference substitution with the whole parameter map.
   */
  lemma {:induction false} ReplaceEachIsExpand(s: string, es: seq<Entry>)
    requires SafeDollars(s)
    requires DistinctKeys(es) && WordEntries(es)
    ensures ReplaceEach(s, es) == Expand(s, ToMap(es))
  {
    if es == [] {
      ExpandNoKeys(s);
    } else {
      var pre := es[..|es| - 1];
      var last := es[|es| - 1];
      ToMapLast(es);
      ToMapWordValues(pre);
      ReplaceEachIsExpand(s, pre);
      ReplaceAllIsExpand(ReplaceEach(s, pre), last.key, last.value);
      ExpandCompose(s, ToMap(pre), map[last.key := last.value]);
    }
  }

  /** The last entry of a map's enumeration adds a key the earlier entries do not have. */
  lemma ToMapLast(es: seq<Entry>)
    requires es != [] && DistinctKeys(es)
    ensures DistinctKeys(es[..|es| - 1])
    ensures es[|es| - 1].key !in ToMap(es[..|es| - 1])
    ensures ToMap(es) == ToMap(es[..|es| - 1]) + map[es[|es| - 1].key := es[|es| - 1].value]
  {
    var pre := es[..|es| - 1];
    var last := es[|es| - 1];
    assert forall i :: 0 <= i < |pre| ==> pre[i] == es[i];
    var m := ToMap(pre);
    assert ToMap(es) == m[last.key := last.value];
    UpdateIsUnion(m, last.key, last.value);
  }

  lemma UpdateIsUnion(m: map<string, string>, k: string, v: string)
    ensures m[k := v] == m + map[k := v]
  {
  }

  lemma ToMapWordValues(es: seq<Entry>)
    requires WordEntries(es)
    ensures forall k :: k in ToMap(es) ==> IsWord(ToMap(es)[k])
  {
    forall k | k in ToMap(es) ensures IsWord(ToMap(es)[k]) {
      var i :| 0 <= i < |es| && es[i] == Entry(k, ToMap(es)[k]);
    }
  }

  /**
   * On a text whose stray `$` are all lone, the order in which the entries of a map are
   * applied does not change the result.
   */
  lemma ReplaceEachOrderIndependent(s: string, es1: seq<Entry>, es2: seq<Entry>)
    requires SafeDollars(s)
    requires DistinctKeys(es1) && WordEntries(es1)
    requires DistinctKeys(es2) && WordEntries(es2)
    requires ToMap(es1) == ToMap(es2)
    ensures ReplaceEach(s, es1) == ReplaceEach(s, es2)
  {
    ReplaceEachIsExpand(s, es1);
    ReplaceEachIsExpand(s, es2);
  }

  /** Entries whose `${key}` does not occur in the text leave it unchanged. */
  lemma {:induction false} ReplaceEachUnusedKeys(s: string, es: seq<Entry>)
    requires forall i, p :: 0 <= i < |es| && 0 <= p < |s| ==> !(Expression(es[i].key) <= s[p..])
    ensures ReplaceEach(s, es) == s
  {
    if es != [] {
      var pre := es[..|es| - 1];
      var last := es[|es| - 1];
      assert forall i :: 0 <= i < |pre| ==> pre[i] == es[i];
      ReplaceEachUnusedKeys(s, pre);
      ReplaceAllAbsent(s, Expression(last.key), last.value);
    }
  }

  /** With distinct keys, the map gives each entry's key that entry's value. */
  lemma ToMapValueAt(es: seq<Entry>, i: nat)
    requires DistinctKeys(es) && i < |es|
    ensures ToMap(es)[es[i].key] == es[i].value
  {
    var k := es[i].key;
    var j :| 0 <= j < |es| && es[j] == Entry(k, ToMap(es)[k]);
    assert es[j].key == es[i].key;
  }
}
