/** The fixed directive grammar ApplyHtaccess recognises (SimpleWebServer.cs:417-427),
    written as tokenisers over space-separated fields. Each parser accepts exactly the lines
    the corresponding regular expression matches and returns the groups of the first match
    the backtracking engine finds (greedy quantifiers, optional groups tried first). */
module HtaccessSyntax {
  import opened Wrappers
  import opened Strings

  /** n spaces. */
  function Spaces(n: nat): (r: string)
    ensures |r| == n
  {
    if n == 0 then [] else [' '] + Spaces(n - 1)
  }

  lemma {:induction false} SpacesAreSpaces(n: nat)
    ensures forall i :: 0 <= i < n ==> Spaces(n)[i] == ' '
  {
    if n > 0 {
      SpacesAreSpaces(n - 1);
    }
  }

  /** A non-empty run of non-space characters ([^ ]+ as a whole string). */
  predicate IsWord(w: string)
  {
    w != [] && WordLength(w) == |w|
  }

  /** Number of spaces at the start of s. */
  function LeadingSpaces(s: string): (n: nat)
    ensures n <= |s| && (n == |s| || s[n] != ' ')
  {
    if s != [] && s[0] == ' ' then 1 + LeadingSpaces(s[1..]) else 0
  }

  lemma {:induction false} LeadingSpacesAreSpaces(s: string)
    ensures forall i :: 0 <= i < LeadingSpaces(s) ==> s[i] == ' '
  {
    if s != [] && s[0] == ' ' {
      LeadingSpacesAreSpaces(s[1..]);
    }
  }

  /** Number of spaces at the end of s. */
  function TrailingSpaces(s: string): (n: nat)
    ensures n <= |s| && (n == |s| || s[|s| - n - 1] != ' ')
  {
    if s != [] && s[|s| - 1] == ' ' then 1 + TrailingSpaces(s[..|s| - 1]) else 0
  }

  /** Number of non-space characters at the start of s. */
  function WordLength(s: string): (n: nat)
    ensures n <= |s| && (n == |s| || s[n] == ' ')
  {
    if s != [] && s[0] != ' ' then 1 + WordLength(s[1..]) else 0
  }

  /** The text before the first space is a word, unless the text starts with a space. */
  lemma WordIsWord(s: string)
    ensures WordLength(s) > 0 ==> IsWord(s[..WordLength(s)])
  {
    PrefixWordLength(s);
  }

  lemma {:induction false} PrefixWordLength(s: string)
    ensures WordLength(s[..WordLength(s)]) == WordLength(s)
  {
    if s != [] && s[0] != ' ' {
      PrefixWordLength(s[1..]);
      assert s[..WordLength(s)] == [s[0]] + s[1..][..WordLength(s[1..])];
    } else {
      assert s[..WordLength(s)] == [];
    }
  }

  /** A word has no space in it. */
  lemma {:induction false} WordHasNoSpace(w: string)
    requires WordLength(w) == |w|
    ensures forall i :: 0 <= i < |w| ==> w[i] != ' '
  {
    if w != [] {
      WordHasNoSpace(w[1..]);
    }
  }

  /** Conversely, a non-empty text without a space is a word. */
  lemma {:induction false} NoSpaceIsWord(w: string)
    requires w != [] && forall i :: 0 <= i < |w| ==> w[i] != ' '
    ensures IsWord(w)
  {
    if |w| > 1 {
      NoSpaceIsWord(w[1..]);
    }
  }

  function SkipSpaces(s: string): (r: string)
    ensures r == [] || r[0] != ' '
  {
    s[LeadingSpaces(s)..]
  }

  lemma {:induction false} LeadingSpacesAfter(n: nat, x: string)
    ensures LeadingSpaces(Spaces(n) + x) == n + LeadingSpaces(x)
  {
    if n > 0 {
      var s := Spaces(n) + x;
      assert s[0] == ' ';
      assert s[1..] == Spaces(n - 1) + x;
      LeadingSpacesAfter(n - 1, x);
    } else {
      assert Spaces(n) + x == x;
    }
  }

  /** Skipping the spaces in front of a text that starts with a non-space gives the text. */
  lemma SkipSpacesBefore(n: nat, x: string)
    requires x == [] || x[0] != ' '
    ensures SkipSpaces(Spaces(n) + x) == x
  {
    LeadingSpacesAfter(n, x);
    assert (Spaces(n) + x)[n..] == x;
  }

  lemma {:induction false} WordLengthOf(w: string, x: string)
    requires WordLength(w) == |w|
    requires x == [] || x[0] == ' '
    ensures WordLength(w + x) == |w|
  {
    if w != [] {
      assert (w + x)[0] == w[0];
      assert (w + x)[1..] == w[1..] + x;
      WordLengthOf(w[1..], x);
    }
  }

  /** The word at the front of w + x is w, when x is empty or starts with a space. */
  lemma SplitWord(w: string, x: string)
    requires WordLength(w) == |w|
    requires x == [] || x[0] == ' '
    ensures WordLength(w + x) == |w| && (w + x)[..|w|] == w && (w + x)[|w|..] == x
  {
    WordLengthOf(w, x);
  }

  // ---------------------------------------------------------------------------------
  // ^ *(?<command>[^ ]+) +(?<params>.+)$

  datatype Command = Command(name: string, params: string)

  /** cmdPattern. When only spaces follow the command word, `.+` takes the last of them
      and the parameters are a single space. */
  function ParseCommand(line: string): (r: Option<Command>)
    ensures r.Some? ==> IsWord(r.value.name) && r.value.params != []
  {
    var t := SkipSpaces(line);
    var w := WordLength(t);
    WordIsWord(t);
    if w == 0 then None else CommandParams(t[..w], t[w..])
  }

  /** ` +(?<params>.+)$` after the command word. */
  function CommandParams(name: string, rest: string): (r: Option<Command>)
    ensures r.Some? ==> r.value.name == name && r.value.params != []
  {
    var b := LeadingSpaces(rest);
    var p := rest[b..];
    if b == 0 then None
    else if p != [] then Some(Command(name, p))
    else if b >= 2 then Some(Command(name, " "))
    else None
  }

  /** A text is its leading spaces followed by the rest. */
  lemma SplitLeadingSpaces(s: string)
    ensures s == Spaces(LeadingSpaces(s)) + s[LeadingSpaces(s)..]
  {
    var n := LeadingSpaces(s);
    LeadingSpacesAreSpaces(s);
    SpacesAreSpaces(n);
    assert s[..n] == Spaces(n);
    assert s == s[..n] + s[n..];
  }

  lemma {:induction false} SpacesGrow(n: nat)
    ensures Spaces(n + 1) == Spaces(n) + " "
  {
    if n > 0 {
      SpacesGrow(n - 1);
    }
  }

  lemma Regroup4(a: string, b: string, c: string, d: string)
    ensures a + (b + (c + d)) == a + b + c + d
  {
  }

  /** Every accepted line is leading spaces, the command word, at least one space and the
      parameters (soundness with respect to cmdPattern). */
  lemma CommandSound(line: string)
    requires ParseCommand(line).Some?
    ensures var c := ParseCommand(line).value;
      exists a: nat, b: nat :: b >= 1 && line == Spaces(a) + c.name + Spaces(b) + c.params
  {
    var c := ParseCommand(line).value;
    var a := LeadingSpaces(line);
    var t := line[a..];
    var w := WordLength(t);
    SplitLeadingSpaces(line);
    assert line == Spaces(a) + t;
    assert c == CommandParams(t[..w], t[w..]).value;
    assert t == c.name + t[w..];
    var b := ParamsSound(c.name, t[w..]);
    assert t == c.name + (Spaces(b) + c.params);
    Regroup4(Spaces(a), c.name, Spaces(b), c.params);
  }

  /** The text after the command word is spaces followed by the parameters. */
  lemma ParamsSound(name: string, rest: string) returns (b: nat)
    requires CommandParams(name, rest).Some?
    ensures b >= 1 && rest == Spaces(b) + CommandParams(name, rest).value.params
  {
    var c := CommandParams(name, rest).value;
    var k := LeadingSpaces(rest);
    SplitLeadingSpaces(rest);
    if rest[k..] != [] {
      b := k;
    } else {
      b := k - 1;
      SpacesGrow(b);
    }
  }

  /** Every line of that shape is accepted (completeness), and when the parameters start
      with a non-space character they are returned exactly. */
  lemma CommandComplete(a: nat, name: string, b: nat, params: string)
    requires IsWord(name) && b >= 1 && params != []
    ensures ParseCommand(Spaces(a) + name + Spaces(b) + params).Some?
    ensures params[0] != ' ' ==>
              ParseCommand(Spaces(a) + name + Spaces(b) + params) == Some(Command(name, params))
  {
    var rest := Spaces(b) + params;
    Regroup4(Spaces(a), name, Spaces(b), params);
    CommandAfterSpaces(a, name + rest);
    SplitWord(name, rest);
    CommandParamsComplete(name, b, params);
  }

  /** The usual way a directive is written: name, one space, parameters. */
  lemma DirectiveLine(name: string, params: string)
    requires IsWord(name) && params != [] && params[0] != ' '
    ensures ParseCommand(name + " " + params) == Some(Command(name, params))
  {
    CommandComplete(0, name, 1, params);
    assert Spaces(0) + name + Spaces(1) + params == name + " " + params;
  }

  /** Leading spaces do not change how a line parses. */
  lemma CommandAfterSpaces(a: nat, t: string)
    requires t == [] || t[0] != ' '
    ensures ParseCommand(Spaces(a) + t) == ParseCommand(t)
  {
    SkipSpacesBefore(a, t);
    SkipSpacesBefore(0, t);
    assert Spaces(0) + t == t;
  }

  lemma CommandParamsComplete(name: string, b: nat, params: string)
    requires b >= 1 && params != []
    ensures CommandParams(name, Spaces(b) + params).Some?
    ensures params[0] != ' ' ==> CommandParams(name, Spaces(b) + params) == Some(Command(name, params))
  {
    LeadingSpacesAfter(b, params);
    var k := LeadingSpaces(params);
    DropAfter(Spaces(b), params, k);
  }

  lemma Regroup(a: string, b: string, c: string, d: string, e: string)
    ensures a + b + c + d + e == a + (b + (c + (d + e)))
  {
  }

  lemma DropAfter(x: string, y: string, k: nat)
    requires k <= |y|
    ensures (x + y)[|x| + k..] == y[k..]
  {
  }

  // ---------------------------------------------------------------------------------
  // ^(?<onoff>on|off) *$   and   ^(?<url>[^ ]+)$

  /** enginePattern (case-insensitive): Some(true) for "on", Some(false) for "off", each
      optionally followed by spaces; None when the parameter does not match. */
  function EngineSwitch(params: string): (r: Option<bool>)
    ensures r.Some? <==> Lower(params[..|params| - TrailingSpaces(params)]) in {"on", "off"}
    ensures r == Some(true) <==> Lower(params[..|params| - TrailingSpaces(params)]) == "on"
  {
    var value := Lower(params[..|params| - TrailingSpaces(params)]);
    if value == "on" then Some(true) else if value == "off" then Some(false) else None
  }

  // ---------------------------------------------------------------------------------
  // (?<word>[^ ]+)( +\[(?<options>.+)\])?$  -- the common tail of condPattern and rulePattern

  datatype WordTail = WordTail(word: string, options: string)

  function ParseWordTail(v: string): (r: Option<WordTail>)
    ensures r.Some? ==> IsWord(r.value.word)
  {
    var w := WordLength(v);
    var rest := v[w..];
    WordIsWord(v);
    if w == 0 then None
    else if rest == [] then Some(WordTail(v[..w], ""))
    else
      var y := SkipSpaces(rest);
      if |y| >= 3 && y[0] == '[' && y[|y| - 1] == ']' then Some(WordTail(v[..w], y[1..|y| - 1]))
      else None
  }

  /** The tail without options, and with options in brackets after one or more spaces. */
  lemma WordTailRoundTrip(w: string, k: nat, options: string)
    requires IsWord(w)
    ensures ParseWordTail(w) == Some(WordTail(w, ""))
    ensures k >= 1 && options != [] ==>
              ParseWordTail(w + Spaces(k) + "[" + options + "]") == Some(WordTail(w, options))
  {
    SplitWord(w, []);
    assert w + [] == w;
    if k >= 1 && options != [] {
      var bracketed := "[" + options + "]";
      var tail := Spaces(k) + bracketed;
      assert w + Spaces(k) + "[" + options + "]" == w + tail;
      SplitWord(w, tail);
      SkipSpacesBefore(k, bracketed);
    }
  }

  // ---------------------------------------------------------------------------------
  // ^(?<testString>[^ ]+) +(?<not>!)? *(?<condition>[^ ]+)( +\[(?<options>.+)\])?$

  datatype Condition = Condition(testString: string, negated: bool, condition: string, options: string)

  /** condPattern. The '!' is taken when the rest still matches after it; otherwise it
      is read as the first character of the condition. */
  function ParseCondition(params: string): (r: Option<Condition>)
    ensures r.Some? ==> IsWord(r.value.testString) && IsWord(r.value.condition)
  {
    var w := WordLength(params);
    WordIsWord(params);
    if w == 0 then None else ConditionOperand(params[..w], params[w..])
  }

  /** ` +(?<not>!)? *(?<condition>...)...$` after the test string. */
  function ConditionOperand(test: string, rest: string): (r: Option<Condition>)
    requires IsWord(test)
    ensures r.Some? ==> r.value.testString == test && IsWord(r.value.condition)
  {
    var b := LeadingSpaces(rest);
    var u := rest[b..];
    if b == 0 then None
    else if u != [] && u[0] == '!' && ParseWordTail(SkipSpaces(u[1..])).Some? then
      var t := ParseWordTail(SkipSpaces(u[1..])).value;
      Some(Condition(test, true, t.word, t.options))
    else
      match ParseWordTail(u)
      case None => None
      case Some(t) => Some(Condition(test, false, t.word, t.options))
  }

  /** The bracketed option suffix of a directive, empty when there are no options. */
  function OptionSuffix(options: string): string
  {
    if options == [] then "" else " [" + options + "]"
  }

  /** A word followed by its option suffix parses back to the word and the options. */
  lemma WordWithOptions(w: string, options: string)
    requires IsWord(w)
    ensures ParseWordTail(w + OptionSuffix(options)) == Some(WordTail(w, options))
  {
    WordTailRoundTrip(w, 1, options);
    SuffixShape(w, options);
  }

  lemma SuffixShape(w: string, options: string)
    ensures options == [] ==> w + OptionSuffix(options) == w
    ensures options != [] ==> w + OptionSuffix(options) == w + Spaces(1) + "[" + options + "]"
  {
    assert Spaces(1) == " ";
  }

  /** A word, one space and a field that starts with a non-space character. */
  lemma AfterOneSpace(w: string, u: string)
    requires IsWord(w) && u != [] && u[0] != ' '
    ensures WordLength(w + (" " + u)) == |w| && (w + (" " + u))[..|w|] == w
    ensures (w + (" " + u))[|w|..] == " " + u
    ensures LeadingSpaces(" " + u) == 1 && (" " + u)[1..] == u
  {
    assert Spaces(1) == " ";
    SplitWord(w, Spaces(1) + u);
    LeadingSpacesAfter(1, u);
  }

  /** A condition written as "test [!]condition [options]" parses back to its parts. */
  lemma ConditionRoundTrip(test: string, negated: bool, condition: string, options: string)
    requires IsWord(test) && IsWord(condition)
    requires !negated ==> condition[0] != '!'
    ensures ParseCondition(test + " " + (if negated then "!" else "") + condition + OptionSuffix(options))
              == Some(Condition(test, negated, condition, options))
  {
    var bang := if negated then "!" else "";
    var tail := condition + OptionSuffix(options);
    var u := bang + tail;
    Regroup(test, " ", bang, condition, OptionSuffix(options));
    AfterOneSpace(test, u);
    WordWithOptions(condition, options);
    if negated {
      assert u[1..] == tail;
      assert SkipSpaces(tail) == tail;
    } else {
      assert u == tail;
    }
    assert ConditionOperand(test, " " + u) == Some(Condition(test, negated, condition, options));
  }

  // ---------------------------------------------------------------------------------
  // ^(?<not>!)? *(?<pattern>[^ ]+) +(?<substitution>[^ ]+)( +\[(?<options>.+)\])?$

  datatype Rule = Rule(negated: bool, pattern: string, substitution: string, options: string)

  /** pattern, spaces, then the substitution with its optional options. */
  function ParseRuleBody(v: string, negated: bool): (r: Option<Rule>)
    ensures r.Some? ==> r.value.negated == negated && IsWord(r.value.pattern) && IsWord(r.value.substitution)
  {
    var w := WordLength(v);
    var rest := v[w..];
    var b := LeadingSpaces(rest);
    WordIsWord(v);
    if w == 0 || b == 0 then None
    else
      match ParseWordTail(rest[b..])
      case None => None
      case Some(t) => Some(Rule(negated, v[..w], t.word, t.options))
  }

  /** rulePattern, with the same treatment of '!' as ParseCondition. */
  function ParseRule(params: string): (r: Option<Rule>)
    ensures r.Some? ==> IsWord(r.value.pattern) && IsWord(r.value.substitution)
  {
    if params != [] && params[0] == '!' && ParseRuleBody(SkipSpaces(params[1..]), true).Some? then
      ParseRuleBody(SkipSpaces(params[1..]), true)
    else
      ParseRuleBody(SkipSpaces(params), false)
  }

  /** A rule written as "[!]pattern substitution [options]" parses back to its parts. */
  lemma RuleRoundTrip(negated: bool, pattern: string, substitution: string, options: string)
    requires IsWord(pattern) && IsWord(substitution)
    requires !negated ==> pattern[0] != '!'
    ensures ParseRule((if negated then "!" else "") + pattern + " " + substitution + OptionSuffix(options))
              == Some(Rule(negated, pattern, substitution, options))
  {
    var bang := if negated then "!" else "";
    var tail := substitution + OptionSuffix(options);
    var v := pattern + (" " + tail);
    AfterOneSpace(pattern, tail);
    WordWithOptions(substitution, options);
    assert ParseRuleBody(v, negated) == Some(Rule(negated, pattern, substitution, options));
    Regroup(bang, pattern, " ", substitution, OptionSuffix(options));
    assert v[0] == pattern[0];
    RuleAfterBang(negated, v);
  }

  /** The '!' of a negated rule is taken exactly when the body after it parses. */
  lemma RuleAfterBang(negated: bool, v: string)
    requires v != [] && v[0] != ' ' && ParseRuleBody(v, negated).Some?
    requires !negated ==> v[0] != '!'
    ensures ParseRule((if negated then "!" else "") + v) == ParseRuleBody(v, negated)
  {
    var p := (if negated then "!" else "") + v;
    assert SkipSpaces(v) == v;
    if negated {
      assert p[1..] == v;
      assert p != [] && p[0] == '!';
    } else {
      assert p == v;
      assert SkipSpaces(p) == v;
      assert p[0] != '!';
    }
  }

  // ---------------------------------------------------------------------------------
  // Options: Split(new[] { ',', ' ' }, RemoveEmptyEntries)

  function CommaToSpace(s: string): (r: string)
    ensures |r| == |s|
  {
    seq(|s|, i requires 0 <= i < |s| => if s[i] == ',' then ' ' else s[i])
  }

  /** The option flags of a condition, split at commas and spaces, empty entries dropped. */
  function OptionFlags(options: string): (flags: seq<string>)
    ensures forall i :: 0 <= i < |flags| ==> flags[i] != [] && ' ' !in flags[i]
  {
    NonEmptySegments(CommaToSpace(options), ' ')
  }

  /** The condition carries an OR (or ornext) flag; NC/nocase and other flags are ignored. */
  predicate HasOrFlag(options: string)
  {
    "OR" in OptionFlags(options) || "ornext" in OptionFlags(options)
  }
}
