/**
 * The definition table of one language module (LangDefinitions): a
 * case-sensitive map from key to template, a lookup that falls back to a
 * diagnostic text, and `format`, which fills the positional placeholders
 * `{0}`, `{1}`, ... of a template and then applies the chat colour codes.
 */
module Definitions {
  import opened Wrappers
  import opened Text

  /** The text a lookup of an undefined key yields. */
  function UnknownDefinition(moduleName: string, key: string): string {
    "Unknown lang definition for module '" + moduleName + "': '" + key + "'"
  }

  /** The diagnostic text names both the module and the missing key. */
  lemma UnknownDefinitionMentions(moduleName: string, key: string)
    ensures Contains(UnknownDefinition(moduleName, key), moduleName)
    ensures Contains(UnknownDefinition(moduleName, key), key)
  {
    var head := "Unknown lang definition for module '";
    var s := UnknownDefinition(moduleName, key);
    assert s[|head|..|head| + |moduleName|] == moduleName;
    assert OccursAt(s, moduleName, |head|);
    var k := |head| + |moduleName| + 4;
    assert s[k..k + |key|] == key;
    assert OccursAt(s, key, k);
  }

  /** A placeholder shape: `{`, then characters that are neither brace, then `}`. */
  predicate IsToken(t: string) {
    |t| >= 3 && t[0] == '{' && t[|t| - 1] == '}' &&
    forall k :: 0 < k < |t| - 1 ==> t[k] != '{' && t[k] != '}'
  }

  /** The placeholder for argument i, as String.format("{%d}", i) prints it. */
  function Token(i: nat): (t: string)
    ensures IsToken(t)
  {
    "{" + Decimal(i) + "}"
  }

  /** Different arguments have different placeholders. */
  lemma TokenInjective(i: nat, j: nat)
    requires i != j
    ensures Token(i) != Token(j)
  {
    DecimalInjective(i, j);
    assert Token(i)[1..|Token(i)| - 1] == Decimal(i);
    assert Token(j)[1..|Token(j)| - 1] == Decimal(j);
  }

  /** No placeholder is a prefix of (text starting with) a different placeholder. */
  lemma TokenNotAtStartOfOther(pat: string, t: string, q: string)
    requires IsToken(pat) && IsToken(t) && pat != t
    requires |pat| <= |t + q|
    ensures (t + q)[..|pat|] != pat
  {
    if |pat| <= |t| {
      assert (t + q)[..|pat|] == t[..|pat|];
      if |pat| < |t| {
        assert t[|pat| - 1] != '}';
      } else {
        assert t[..|pat|] == t;
      }
    } else {
      assert (t + q)[|t| - 1] == '}';
      assert pat[|t| - 1] != '}';
    }
  }

  /** Replace when the text does not start with the target: keep one character and go on. */
  lemma ReplaceSkipOne(s: string, pat: string, rep: string)
    requires |pat| > 0 && |s| > 0
    requires |s| >= |pat| ==> s[..|pat|] != pat
    ensures Replace(s, pat, rep) == [s[0]] + Replace(s[1..], pat, rep)
  {
    if |s| < |pat| {
      assert Replace(s[1..], pat, rep) == s[1..];
      assert s == [s[0]] + s[1..];
    }
  }

  /** Scanning through the tail t[k..] of a different placeholder replaces nothing in it. */
  lemma {:induction false} ReplaceSkipsToken(t: string, k: nat, q: string, pat: string, rep: string)
    requires IsToken(pat) && IsToken(t) && pat != t && k <= |t|
    ensures Replace(t[k..] + q, pat, rep) == t[k..] + Replace(q, pat, rep)
    decreases |t| - k
  {
    var s := t[k..] + q;
    if k == |t| {
      assert s == q;
    } else {
      if |s| >= |pat| {
        if k == 0 {
          assert t[k..] == t;
          TokenNotAtStartOfOther(pat, t, q);
        } else {
          assert s[0] == t[k] != pat[0];
        }
      }
      ReplaceSkipOne(s, pat, rep);
      assert s[1..] == t[k + 1..] + q;
      ReplaceSkipsToken(t, k + 1, q, pat, rep);
      assert t[k..] == [t[k]] + t[k + 1..];
    }
  }

  /**
   * Replacing one placeholder leaves every occurrence of another one in place:
   * the text before and after it are rewritten independently.
   */
  lemma {:induction false} ReplaceAroundToken(p: string, t: string, q: string, pat: string, rep: string)
    requires IsToken(pat) && IsToken(t) && pat != t
    ensures Replace(p + t + q, pat, rep) == Replace(p, pat, rep) + t + Replace(q, pat, rep)
    decreases |p|
  {
    var s := p + t + q;
    if p == [] {
      assert s == t[0..] + q;
      ReplaceSkipsToken(t, 0, q, pat, rep);
    } else if |s| >= |pat| && s[..|pat|] == pat {
      ReplaceMatchInPrefix(p, t, q, pat);
      ReplaceAroundToken(p[|pat|..], t, q, pat, rep);
      AroundMatchStep(p, t, q, pat, rep);
    } else {
      ReplaceAroundToken(p[1..], t, q, pat, rep);
      AroundSkipStep(p, t, q, pat, rep);
    }
  }

  /** The inductive step of ReplaceAroundToken when p starts with the target. */
  lemma AroundMatchStep(p: string, t: string, q: string, pat: string, rep: string)
    requires |pat| > 0 && |p| >= |pat| && p[..|pat|] == pat
    requires Replace(p[|pat|..] + t + q, pat, rep) == Replace(p[|pat|..], pat, rep) + t + Replace(q, pat, rep)
    ensures Replace(p + t + q, pat, rep) == Replace(p, pat, rep) + t + Replace(q, pat, rep)
  {
    var u := t + q;
    assert p + t + q == p + u;
    assert p[|pat|..] + t + q == p[|pat|..] + u;
    ReplaceStepMatch(p, u, pat, rep);
    var a, b := Replace(p[|pat|..], pat, rep), Replace(q, pat, rep);
    assert rep + (a + t + b) == rep + a + t + b;
  }

  /** The inductive step of ReplaceAroundToken when p + t + q does not start with the target. */
  lemma AroundSkipStep(p: string, t: string, q: string, pat: string, rep: string)
    requires |pat| > 0 && p != []
    requires |p + t + q| >= |pat| ==> (p + t + q)[..|pat|] != pat
    requires Replace(p[1..] + t + q, pat, rep) == Replace(p[1..], pat, rep) + t + Replace(q, pat, rep)
    ensures Replace(p + t + q, pat, rep) == Replace(p, pat, rep) + t + Replace(q, pat, rep)
  {
    var u := t + q;
    var a, b := Replace(p[1..], pat, rep), Replace(q, pat, rep);
    assert Replace(p + t + q, pat, rep) == [p[0]] + (a + t + b) by {
      assert p + t + q == p + u;
      assert p[1..] + t + q == p[1..] + u;
      ReplaceStepSkip(p, u, pat, rep);
    }
    assert Replace(p, pat, rep) == [p[0]] + a by {
      ReplaceStepSkip(p, u, pat, rep);
    }
    assert [p[0]] + (a + t + b) == [p[0]] + a + t + b;
  }

  /**
   * One matching step of Replace on p + u, where p starts with the target:
   * the replacement, then the rest of p followed by u.
   */
  lemma ReplaceStepMatch(p: string, u: string, pat: string, rep: string)
    requires |pat| > 0 && |p| >= |pat| && p[..|pat|] == pat
    ensures Replace(p, pat, rep) == rep + Replace(p[|pat|..], pat, rep)
    ensures Replace(p + u, pat, rep) == rep + Replace(p[|pat|..] + u, pat, rep)
  {
    assert (p + u)[..|pat|] == pat;
    assert (p + u)[|pat|..] == p[|pat|..] + u;
  }

  /**
   * One non-matching step of Replace on p + u, where p + u does not start
   * with the target: the first character of p is kept, on both sides.
   */
  lemma ReplaceStepSkip(p: string, u: string, pat: string, rep: string)
    requires |pat| > 0 && p != []
    requires |p + u| >= |pat| ==> (p + u)[..|pat|] != pat
    ensures Replace(p, pat, rep) == [p[0]] + Replace(p[1..], pat, rep)
    ensures Replace(p + u, pat, rep) == [p[0]] + Replace(p[1..] + u, pat, rep)
  {
    ReplaceSkipOne(p + u, pat, rep);
    if |p| >= |pat| {
      assert p[..|pat|] == (p + u)[..|pat|];
    }
    ReplaceSkipOne(p, pat, rep);
    assert (p + u)[1..] == p[1..] + u;
  }

  /** A match at the start of p + t + q (p non-empty, t a placeholder) lies inside p. */
  lemma ReplaceMatchInPrefix(p: string, t: string, q: string, pat: string)
    requires IsToken(pat) && IsToken(t) && p != []
    requires |p + t + q| >= |pat| && (p + t + q)[..|pat|] == pat
    ensures |p| >= |pat| && p[..|pat|] == pat
  {
    var s := p + t + q;
    assert forall k :: 0 < k < |pat| ==> s[k] == pat[k] != '{';
    assert s[|p|] == t[0] == '{';
    assert p[..|pat|] == s[..|pat|];
  }

  /** Replace when the text starts with the target: the replacement, then the rest rewritten. */
  lemma ReplaceAtStart(pat: string, q: string, rep: string)
    requires |pat| > 0
    ensures Replace(pat + q, pat, rep) == rep + Replace(q, pat, rep)
  {
    var s := pat + q;
    assert s[..|pat|] == pat;
    assert s[|pat|..] == q;
  }

  /** Text free of `{` followed by a placeholder: exactly that placeholder is replaced. */
  lemma {:induction false} ReplaceFirstToken(p: string, pat: string, q: string, rep: string)
    requires IsToken(pat) && forall k :: 0 <= k < |p| ==> p[k] != '{'
    ensures Replace(p + pat + q, pat, rep) == p + rep + Replace(q, pat, rep)
    decreases |p|
  {
    var s := p + pat + q;
    if p == [] {
      ReplaceAtStart(pat, q, rep);
      assert s == pat + q;
    } else {
      ReplaceFirstToken(p[1..], pat, q, rep);
      FirstTokenSkipStep(p, pat, q, rep);
    }
  }

  /** The inductive step of ReplaceFirstToken: the first character of p is not a brace, so it is kept. */
  lemma FirstTokenSkipStep(p: string, pat: string, q: string, rep: string)
    requires IsToken(pat) && p != [] && p[0] != '{'
    requires Replace(p[1..] + pat + q, pat, rep) == p[1..] + rep + Replace(q, pat, rep)
    ensures Replace(p + pat + q, pat, rep) == p + rep + Replace(q, pat, rep)
  {
    var s, tail := p + pat + q, Replace(q, pat, rep);
    assert Replace(s, pat, rep) == [p[0]] + Replace(p[1..] + pat + q, pat, rep) by {
      assert s[0] == p[0] != pat[0];
      ReplaceSkipOne(s, pat, rep);
      assert s[1..] == p[1..] + pat + q;
    }
    assert [p[0]] + (p[1..] + rep + tail) == p + rep + tail by {
      assert p == [p[0]] + p[1..];
    }
  }

  /**
   * The text produced by the loop of `format` before colouring: for
   * i = 0, 1, ..., |args| - 1 in turn, every `{i}` of the current text is
   * replaced by args[i], each step rewriting the previous step's output.
   */
  function Substitute(template: string, args: seq<string>): string
    decreases |args|
  {
    if args == [] then template
    else Replace(Substitute(template, args[..|args| - 1]), Token(|args| - 1), args[|args| - 1])
  }

  /** Filling every placeholder with its own text gives the template back. */
  lemma {:induction false} SubstituteSelf(template: string, args: seq<string>)
    requires forall i :: 0 <= i < |args| ==> args[i] == Token(i)
    ensures Substitute(template, args) == template
    decreases |args|
  {
    if args != [] {
      SubstituteSelf(template, args[..|args| - 1]);
      ReplaceSelf(template, Token(|args| - 1));
    }
  }

  /** A template in which no placeholder of an argument occurs comes out unchanged. */
  lemma {:induction false} SubstituteWithoutPlaceholders(template: string, args: seq<string>)
    requires forall i :: 0 <= i < |args| ==> !Contains(template, Token(i))
    ensures Substitute(template, args) == template
    decreases |args|
  {
    if args != [] {
      var n := |args| - 1;
      SubstituteWithoutPlaceholders(template, args[..n]);
      ReplaceAbsent(template, Token(n), args[n]);
    }
  }

  /**
   * A placeholder `{j}` with no argument (j >= |args|) is never rewritten:
   * the text on either side of it is substituted independently.
   */
  lemma {:induction false} SubstituteKeepsUnmatchedToken(p: string, j: nat, q: string, args: seq<string>)
    requires j >= |args|
    ensures Substitute(p + Token(j) + q, args) == Substitute(p, args) + Token(j) + Substitute(q, args)
    decreases |args|
  {
    if args != [] {
      var n := |args| - 1;
      SubstituteKeepsUnmatchedToken(p, j, q, args[..n]);
      TokenInjective(n, j);
      ReplaceAroundToken(Substitute(p, args[..n]), Token(j), Substitute(q, args[..n]), Token(n), args[n]);
    }
  }

  /** One argument fills its placeholder: "Hello, {0}!" with "Alice" gives "Hello, Alice!". */
  lemma SubstituteGreeting()
    ensures Substitute("Hello, {0}!", ["Alice"]) == "Hello, Alice!"
  {
    var template, greeting := "Hello, {0}!", "Hello, Alice!";
    assert template == "Hello, " + Token(0) + "!" by {
      TokenZero();
    }
    assert greeting == "Hello, " + "Alice" + "!";
    SubstituteSingle("Hello, ", "!", "Alice");
  }

  /**
   * One argument and one placeholder `{0}` in text without other braces:
   * the placeholder is filled and the rest is kept.
   */
  lemma SubstituteSingle(p: string, q: string, a: string)
    requires forall k :: 0 <= k < |p| ==> p[k] != '{'
    requires forall k :: 0 <= k < |q| ==> q[k] != '{'
    ensures Substitute(p + Token(0) + q, [a]) == p + a + q
  {
    var pat := Token(0);
    SubstituteOne(p + pat + q, a);
    ReplaceFirstToken(p, pat, q, a);
    forall k | 0 <= k <= |q|
      ensures !OccursAt(q, pat, k)
    {
      if k + |pat| <= |q| {
        assert q[k..k + |pat|][0] == q[k];
      }
    }
    ReplaceAbsent(q, pat, a);
  }

  /** The placeholder of the first argument is "{0}". */
  lemma TokenZero()
    ensures Token(0) == "{0}"
  {
    assert Decimal(0) == "0";
  }

  /** With one argument, substitution is a single replace of `{0}`. */
  lemma SubstituteOne(template: string, a: string)
    ensures Substitute(template, [a]) == Replace(template, Token(0), a)
  {
    assert [a][..0] == [];
  }

  /**
   * Each step rewrites the previous step's output, so an argument that itself
   * looks like a later placeholder is filled in by that later argument.
   */
  lemma SubstituteRescansArguments()
    ensures Substitute("{0}", ["{1}", "x"]) == "x"
  {
    var args := ["{1}", "x"];
    assert Token(0) == "{0}" && Token(1) == "{1}";
    assert args[..1] == ["{1}"] && args[..1][..0] == [];
    ReplaceFirstToken("", Token(0), "", "{1}");
    assert Substitute("{0}", args[..1]) == "{1}";
    ReplaceFirstToken("", Token(1), "", "x");
  }

  /** The string form of one argument of `format`: null becomes the empty text. */
  function ArgumentText(a: Option<string>): string {
    if a.None? then "" else a.value
  }

  /** The argument texts of a varargs array, which may itself be null. */
  function Arguments(values: Option<seq<Option<string>>>): seq<string> {
    if values.None? then []
    else seq(|values.value|, i requires 0 <= i < |values.value| => ArgumentText(values.value[i]))
  }

  class LangDefinitions {
    const name: string
    var definitions: map<string, string>

    constructor (name: string)
      ensures this.name == name && definitions == map[]
    {
      this.name := name;
      definitions := map[];
    }

    /** The template stored under `key` (keys are case-sensitive), else the diagnostic text. */
    function GetDefinition(key: string): (r: string)
      reads this
      ensures key in definitions ==> r == definitions[key]
      ensures key !in definitions ==> r == UnknownDefinition(name, key)
      ensures key !in definitions ==> Contains(r, name) && Contains(r, key)
    {
      UnknownDefinitionMentions(name, key);
      if key in definitions then definitions[key] else UnknownDefinition(name, key)
    }

    /**
     * Fills the placeholders of the template for `key` with the argument
     * texts and applies `colour`, the chat colour translation. Reads the
     * table and changes nothing.
     */
    method Format(key: string, values: Option<seq<Option<string>>>, colour: string -> string) returns (r: string)
      ensures r == colour(Substitute(GetDefinition(key), Arguments(values)))
      ensures values.None? || values.value == [] ==> r == colour(GetDefinition(key))
    {
      var definition := GetDefinition(key);
      if values.Some? && |values.value| > 0 {
        var args := values.value;
        ghost var texts := Arguments(values);
        for i := 0 to |args|
          invariant definition == Substitute(GetDefinition(key), texts[..i])
        {
          var argLine := Token(i);
          var argument := if args[i].None? then "" else args[i].value;
          assert texts[..i + 1][..i] == texts[..i];
          definition := Replace(definition, argLine, argument);
        }
        assert texts[..|args|] == texts;
      }
      r := colour(definition);
    }

    /** Stores `format` under `key`, overwriting any earlier value. */
    method Define(key: string, format: string)
      modifies this
      ensures definitions == old(definitions)[key := format]
      ensures GetDefinition(key) == format
      ensures forall k :: k != key ==> GetDefinition(k) == old(GetDefinition(k))
    {
      definitions := definitions[key := format];
    }

    /**
     * A snapshot of the table: the same keys with the same templates, so it
     * answers every lookup as GetDefinition does now.
     */
    function Definitions(): (m: map<string, string>)
      reads this
      ensures m.Keys == definitions.Keys && forall k :: k in m ==> m[k] == definitions[k]
      ensures forall k :: k in m ==> GetDefinition(k) == m[k]
      ensures forall k :: k !in m ==> GetDefinition(k) == UnknownDefinition(name, k)
    {
      definitions
    }
  }
}
