/**
 * The placeholder scanner of Template.java: every non-overlapping, left-to-right
 * match of the fixed pattern `\$\{\w+\}` in a text, with `\w` the ASCII word class.
 */
module Scanner {
  import opened Wrappers

  /** `\w` of a Java pattern compiled without UNICODE_CHARACTER_CLASS. */
  predicate IsWordChar(c: char) {
    ('a' <= c <= 'z') || ('A' <= c <= 'Z') || ('0' <= c <= '9') || c == '_'
  }

  predicate IsWord(s: string) {
    forall i :: 0 <= i < |s| ==> IsWordChar(s[i])
  }

  /** A placeholder name: one or more word characters. */
  predicate IsName(s: string) {
    |s| > 0 && IsWord(s)
  }

  /** The literal form `${key}` of a placeholder (createExpression). */
  function Expression(key: string): string {
    "${" + key + "}"
  }

  /** Length of the longest prefix of `s` made of word characters. */
  function WordRunLength(s: string): (n: nat)
    ensures n <= |s|
  {
    if s != [] && IsWordChar(s[0]) then 1 + WordRunLength(s[1..]) else 0
  }

  /** The run is made of word characters and is not followed by one. */
  lemma {:induction false} WordRunLengthMaximal(s: string)
    ensures IsWord(s[..WordRunLength(s)])
    ensures WordRunLength(s) < |s| ==> !IsWordChar(s[WordRunLength(s)])
  {
    if s != [] && IsWordChar(s[0]) {
      WordRunLengthMaximal(s[1..]);
      assert s[..WordRunLength(s)] == [s[0]] + s[1..][..WordRunLength(s[1..])];
    }
  }

  /**
   * The name of the placeholder that starts `s`, if `s` starts with one.
   * `\w+` is greedy and `}` is not a word character, so the match, when there
   * is one, is `${` followed by the whole run of word characters and then `}`.
   */
  function LeadingPlaceholder(s: string): (r: Option<string>)
    ensures r.Some? ==> 0 < |r.value| && |r.value| + 3 <= |s| && s[0] == '$'
  {
    if 2 <= |s| && s[0] == '$' && s[1] == '{' then
      var n := WordRunLength(s[2..]);
      if 0 < n && 2 + n < |s| && s[2 + n] == '}' then Some(s[2..2 + n]) else None
    else None
  }

  /** A reported placeholder is a name, and `s` starts with its literal. */
  lemma LeadingPlaceholderSound(s: string)
    ensures LeadingPlaceholder(s).Some? ==>
              IsName(LeadingPlaceholder(s).value) && Expression(LeadingPlaceholder(s).value) <= s
  {
    if LeadingPlaceholder(s).Some? {
      var name := LeadingPlaceholder(s).value;
      WordRunLengthMaximal(s[2..]);
      assert name == s[2..][..WordRunLength(s[2..])];
      assert Expression(name) == s[..|name| + 3];
    }
  }

  /** `s` starts with a placeholder named `name` exactly when it starts with `${name}`. */
  lemma LeadingPlaceholderIff(s: string, name: string)
    requires IsName(name)
    ensures LeadingPlaceholder(s) == Some(name) <==> Expression(name) <= s
  {
    if Expression(name) <= s {
      var e := Expression(name);
      assert s[0] == e[0] == '$' && s[1] == e[1] == '{';
      var n := WordRunLength(s[2..]);
      WordRunLengthMaximal(s[2..]);
      forall j | 0 <= j < |name| ensures s[2..][j] == name[j] {
        assert s[2 + j] == e[2 + j];
      }
      assert s[2 + |name|] == e[2 + |name|] == '}';
      assert s[2..2 + n] == name;
    }
  }

  /** A placeholder literal contains no `$` after its first character. */
  lemma NoDollarInside(name: string, j: int)
    requires IsName(name) && 0 < j < |Expression(name)|
    ensures Expression(name)[j] != '$'
  {
    if 2 <= j < |name| + 2 {
      assert Expression(name)[j] == name[j - 2];
    }
  }

  /** One match: a placeholder named `name` occupying `text[start..End()]`. */
  datatype Match = Match(start: nat, name: string) {
    function End(): nat {
      start + |name| + 3
    }
  }

  /**
   * The matches found by scanning `s` from position `i`, as Matcher.find does:
   * try each position in turn; after a match, resume at its end.
   */
  function ScanFrom(s: string, i: nat): (ms: seq<Match>)
    requires i <= |s|
    decreases |s| - i
  {
    if i == |s| then []
    else match LeadingPlaceholder(s[i..])
      case Some(name) => [Match(i, name)] + ScanFrom(s, i + |name| + 3)
      case None => ScanFrom(s, i + 1)
  }

  /** One step of the scan when a placeholder starts at `i`, in the terms of the definition. */
  lemma ScanFromUnfold(s: string, i: nat)
    requires i < |s| && LeadingPlaceholder(s[i..]).Some?
    ensures ScanFrom(s, i) == [Match(i, LeadingPlaceholder(s[i..]).value)]
                              + ScanFrom(s, i + |LeadingPlaceholder(s[i..]).value| + 3)
  {
  }

  /** One step of the scan, when a placeholder named `name` starts at `i` and ends at `j`. */
  lemma ScanFromStepMatch(s: string, i: nat, name: string, j: nat)
    requires i < |s| && LeadingPlaceholder(s[i..]) == Some(name) && j == i + |name| + 3
    ensures ScanFrom(s, i) == [Match(i, name)] + ScanFrom(s, j)
  {
    ScanFromUnfold(s, i);
  }

  /** One step of the scan, when no placeholder starts at `i`. */
  lemma ScanFromStepNone(s: string, i: nat, k: nat)
    requires i < |s| && LeadingPlaceholder(s[i..]).None? && k == i + 1
    ensures ScanFrom(s, i) == ScanFrom(s, k)
  {
  }

  /** Every reported match lies in the scanned part and is a placeholder starting at its position. */
  lemma {:induction false} ScanFromSound(s: string, i: nat, m: Match)
    requires i <= |s| && m in ScanFrom(s, i)
    ensures i <= m.start && m.End() <= |s|
    ensures LeadingPlaceholder(s[m.start..]) == Some(m.name)
    decreases |s| - i
  {
    match LeadingPlaceholder(s[i..])
    case Some(name) =>
      var j := i + |name| + 3;
      ScanFromStepMatch(s, i, name, j);
      if m != Match(i, name) {
        ScanFromSound(s, j, m);
      }
    case None =>
      var k := i + 1;
      ScanFromStepNone(s, i, k);
      ScanFromSound(s, k, m);
  }

  /** Every placeholder starting at or after `i` is reported. */
  lemma {:induction false} ScanFromComplete(s: string, i: nat, p: nat)
    requires i <= p < |s| && LeadingPlaceholder(s[p..]).Some?
    ensures Match(p, LeadingPlaceholder(s[p..]).value) in ScanFrom(s, i)
    decreases |s| - i
  {
    match LeadingPlaceholder(s[i..])
    case Some(name) =>
      var j := i + |name| + 3;
      ScanFromStepMatch(s, i, name, j);
      if p != i {
        if p < j {
          NoPlaceholderInside(s, i, name, p);
        }
        ScanFromComplete(s, j, p);
      }
    case None =>
      var k := i + 1;
      ScanFromStepNone(s, i, k);
      if p != i {
        ScanFromComplete(s, k, p);
      }
  }

  /** No placeholder starts strictly inside another one. */
  lemma NoPlaceholderInside(s: string, i: nat, name: string, p: nat)
    requires i < p < i + |name| + 3 <= |s|
    requires LeadingPlaceholder(s[i..]) == Some(name)
    ensures LeadingPlaceholder(s[p..]).None?
  {
    LeadingPlaceholderSound(s[i..]);
    var e := Expression(name);
    assert s[i..][..|e|] == e;
    assert s[p] == s[i..][p - i] == e[p - i];
    NoDollarInside(name, p - i);
  }

  /** Consecutive matches do not overlap. */
  lemma {:induction false} ScanFromOrdered(s: string, i: nat, k: nat)
    requires i <= |s| && k + 1 < |ScanFrom(s, i)|
    ensures ScanFrom(s, i)[k].End() <= ScanFrom(s, i)[k + 1].start
    decreases |s| - i
  {
    match LeadingPlaceholder(s[i..])
    case Some(name) =>
      var j := i + |name| + 3;
      var rest := ScanFrom(s, j);
      ScanFromStepMatch(s, i, name, j);
      if k == 0 {
        assert rest[0] in rest;
        ScanFromSound(s, j, rest[0]);
      } else {
        ScanFromOrdered(s, j, k - 1);
      }
    case None =>
      var n := i + 1;
      ScanFromStepNone(s, i, n);
      ScanFromOrdered(s, n, k);
  }

  /** getExpressions(): all matches of the placeholder pattern in `text`. */
  function Scan(text: string): seq<Match> {
    ScanFrom(text, 0)
  }

  /** The literal `${name}` of a placeholder named `name` starts at position `p` of `s`. */
  predicate OccursAt(s: string, p: nat, name: string) {
    IsName(name) && p + |name| + 3 <= |s| && s[p..p + |name| + 3] == Expression(name)
  }

  /**
   * The scanner reports exactly the occurrences of placeholder literals: a
   * match is reported iff its literal occurs at its start position.
   */
  lemma ScanExact(s: string, m: Match)
    ensures m in Scan(s) <==> OccursAt(s, m.start, m.name)
  {
    if m in Scan(s) {
      ScanFromSound(s, 0, m);
      LeadingPlaceholderSound(s[m.start..]);
      PrefixIsOccurrence(s, m.start, m.name);
    }
    if OccursAt(s, m.start, m.name) {
      PrefixIsOccurrence(s, m.start, m.name);
      LeadingPlaceholderIff(s[m.start..], m.name);
      ScanFromComplete(s, 0, m.start);
    }
  }

  /** A literal occurs at `p` exactly when the rest of the text from `p` starts with it. */
  lemma PrefixIsOccurrence(s: string, p: nat, name: string)
    requires p <= |s| && IsName(name)
    ensures Expression(name) <= s[p..] <==> OccursAt(s, p, name)
  {
    if p + |name| + 3 <= |s| {
      assert s[p..][..|name| + 3] == s[p..p + |name| + 3];
    }
  }

  /** Matches are reported in strictly increasing order of position, without overlap. */
  lemma {:induction false} ScanOrdered(s: string, j: nat, k: nat)
    requires j < k < |Scan(s)|
    ensures Scan(s)[j].End() <= Scan(s)[k].start
    ensures Scan(s)[j].start < Scan(s)[k].start
    decreases k - j
  {
    var ms := Scan(s);
    ScanFromOrdered(s, 0, k - 1);
    assert ms[k - 1] in ms;
    ScanFromSound(s, 0, ms[k - 1]);
    if j < k - 1 {
      ScanOrdered(s, j, k - 1);
    }
  }

  /** A text yields no match iff no placeholder literal occurs in it. */
  lemma ScanEmptyIff(s: string)
    ensures Scan(s) == [] <==> forall p: nat, name :: !OccursAt(s, p, name)
  {
    if Scan(s) != [] {
      var m := Scan(s)[0];
      ScanExact(s, m);
    } else {
      forall p: nat, name | OccursAt(s, p, name) ensures false {
        ScanExact(s, Match(p, name));
      }
    }
  }

  /** Positions where no placeholder starts are passed over by the scan. */
  lemma {:induction false} ScanFromSkips(s: string, i: nat, j: nat)
    requires i <= j <= |s|
    requires forall p :: i <= p < j ==> LeadingPlaceholder(s[p..]).None?
    ensures ScanFrom(s, i) == ScanFrom(s, j)
    decreases j - i
  {
    if i < j {
      var k := i + 1;
      ScanFromStepNone(s, i, k);
      ScanFromSkips(s, k, j);
    }
  }

  /**
   * A placeholder literal at the scan position `i` is reported, and the scan
   * resumes at its end `j`.
   */
  lemma ScanFromAt(s: string, i: nat, name: string, j: nat)
    requires OccursAt(s, i, name) && j == i + |name| + 3
    ensures ScanFrom(s, i) == [Match(i, name)] + ScanFrom(s, j)
  {
    PrefixIsOccurrence(s, i, name);
    LeadingPlaceholderIff(s[i..], name);
    ScanFromStepMatch(s, i, name, j);
  }

  /** A position holding no `$` starts no placeholder. */
  lemma NoPlaceholderWithoutDollar(s: string, p: nat)
    requires p < |s| && s[p] != '$'
    ensures LeadingPlaceholder(s[p..]).None?
  {
    assert s[p..][0] == s[p];
  }

  /** A stretch `w` of text without `$`, from `i` to `j`, is passed over by the scan. */
  lemma ScanFromPlain(s: string, i: nat, w: string, j: nat)
    requires '$' !in w && j == i + |w| <= |s| && s[i..j] == w
    ensures ScanFrom(s, i) == ScanFrom(s, j)
  {
    forall p | i <= p < j ensures LeadingPlaceholder(s[p..]).None? {
      assert s[p] == w[p - i] && w[p - i] in w;
      NoPlaceholderWithoutDollar(s, p);
    }
    ScanFromSkips(s, i, j);
  }

  /**
   * Text `w` without `$` from `i` to `j`, then a placeholder from `j` to `k`:
   * the placeholder is the next match, and the scan resumes at `k`.
   */
  lemma ScanPlainThenPlaceholder(s: string, i: nat, w: string, j: nat, name: string, k: nat)
    requires '$' !in w && j == i + |w| <= |s| && s[i..j] == w
    requires OccursAt(s, j, name) && k == j + |name| + 3
    ensures ScanFrom(s, i) == [Match(j, name)] + ScanFrom(s, k)
  {
    ScanFromPlain(s, i, w, j);
    ScanFromAt(s, j, name, k);
  }
}
