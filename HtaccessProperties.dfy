/** What ApplyHtaccess promises, stated over the line-by-line specification in Htaccess. */
module HtaccessProperties {
  import opened Wrappers
  import opened Platform
  import opened HtaccessSyntax
  import opened Htaccess
  import opened Strings

  /** Running two pieces of a file one after the other is running the whole file. */
  lemma {:induction false} RunAppend(env: Env, a: seq<string>, b: seq<string>, st: RewriteState)
    ensures Run(env, a + b, st) ==
              match Run(env, a, st)
              case Continue(s) => Run(env, b, s)
              case Return(r) => Return(r)
    decreases |a|
  {
    if a == [] {
      assert a + b == b;
    } else {
      assert (a + b)[0] == a[0];
      assert (a + b)[1..] == a[1..] + b;
      match Step(env, st, a[0])
      case Continue(s) => RunAppend(env, a[1..], b, s);
      case Return(r) =>
    }
  }

  /** The first line that returns decides the result; no later line is read. */
  lemma FirstReturnDecides(env: Env, a: seq<string>, line: string, b: seq<string>, st: RewriteState)
    requires Run(env, a, st).Continue?
    requires Step(env, Run(env, a, st).state, line).Return?
    ensures Run(env, a + [line] + b, st) == Step(env, Run(env, a, st).state, line)
  {
    RunAppend(env, a, [line] + b, st);
    assert a + [line] + b == a + ([line] + b);
    assert ([line] + b)[0] == line;
  }

  /** A RewriteEngine line whose parameter is not "on" (case-insensitive, trailing spaces
      allowed) ends the run with the original file name, whatever follows. */
  lemma EngineNotOnStops(env: Env, a: seq<string>, line: string, b: seq<string>)
    requires Run(env, a, Initial).Continue?
    requires ParseCommand(line).Some? && ParseCommand(line).value.name == "RewriteEngine"
    requires EngineSwitch(ParseCommand(line).value.params) != Some(true)
    ensures Run(env, a + [line] + b, Initial) == Return(Success(env.filename))
  {
    FirstReturnDecides(env, a, line, b, Initial);
  }

  /** The line switches the engine on. */
  predicate EnablesEngine(line: string)
  {
    ParseCommand(line).Some? && ParseCommand(line).value.name == "RewriteEngine" &&
    EngineSwitch(ParseCommand(line).value.params) == Some(true)
  }

  /** Once on, the engine stays on; only a RewriteEngine line switches it on and only a
      RewriteBase line changes the base; a line that neither switches the engine on nor is
      a rule leaves a pending condition unset when the engine is off. */
  lemma DirectiveFrame(env: Env, st: RewriteState, cmd: Command)
    requires Directive(env, st, cmd).Continue?
    ensures var s := Directive(env, st, cmd).state;
      (st.engineOn ==> s.engineOn) &&
      (s.engineOn && !st.engineOn ==>
         cmd.name == "RewriteEngine" && EngineSwitch(cmd.params) == Some(true)) &&
      (s.baseDir != st.baseDir ==> cmd.name == "RewriteBase") &&
      (!st.engineOn && !st.condSet ==> !s.condSet)
  {
    if cmd.name == [] || cmd.name[0] == '#' {
    } else if cmd.name == "RewriteEngine" {
    } else if cmd.name == "RewriteBase" {
    } else if cmd.name == "RewriteCond" {
    } else if cmd.name == "RewriteRule" {
    }
  }

  /** The same for a whole line. */
  lemma StepFrame(env: Env, st: RewriteState, line: string)
    requires Step(env, st, line).Continue?
    ensures var s := Step(env, st, line).state;
      (st.engineOn ==> s.engineOn) &&
      (s.engineOn && !st.engineOn ==> EnablesEngine(line)) &&
      (s.baseDir != st.baseDir ==> ParseCommand(line).value.name == "RewriteBase") &&
      (!st.engineOn && !st.condSet ==> !s.condSet)
  {
    match ParseCommand(line)
    case None =>
    case Some(cmd) => DirectiveFrame(env, st, cmd);
  }

  /** While the engine is off, no RewriteCond or RewriteRule has any effect: a file in
      which no line switches the engine on ends with the engine still off or returns the
      original file name. */
  lemma {:induction false} EngineNeverOn(env: Env, lines: seq<string>, st: RewriteState)
    requires !st.engineOn && !st.condSet
    requires forall i :: 0 <= i < |lines| ==> !EnablesEngine(lines[i])
    ensures Run(env, lines, st) == Return(Success(env.filename)) ||
            (Run(env, lines, st).Continue? && !Run(env, lines, st).state.engineOn)
    decreases |lines|
  {
    if lines != [] {
      assert !EnablesEngine(lines[0]);
      var flow := Step(env, st, lines[0]);
      if flow.Continue? {
        StepFrame(env, st, lines[0]);
        EngineNeverOn(env, lines[1..], flow.state);
      } else {
        EngineOffReturnsFilename(env, st, lines[0]);
      }
    }
  }

  /** With the engine off, the only line that returns is a RewriteEngine line that is not
      "on", and it returns the original file name. */
  lemma EngineOffReturnsFilename(env: Env, st: RewriteState, line: string)
    requires !st.engineOn
    requires Step(env, st, line).Return?
    ensures Step(env, st, line) == Return(Success(env.filename))
  {
    match ParseCommand(line)
    case None =>
    case Some(cmd) =>
      if cmd.name == [] || cmd.name[0] == '#' {
      } else if cmd.name == "RewriteEngine" {
      } else if cmd.name == "RewriteBase" {
      } else if cmd.name == "RewriteCond" {
      } else if cmd.name == "RewriteRule" {
      }
  }

  /** A .htaccess file that never switches the engine on leaves the file name unchanged. */
  lemma NoEngineNoRewrite(env: Env)
    requires var ht := env.lib.combine(env.rootDir, HtaccessFilename);
      forall i :: 0 <= i < |env.fs.ReadLines(ht)| ==> !EnablesEngine(env.fs.ReadLines(ht)[i])
    ensures Rewritten(env) == Success(env.filename)
  {
    var ht := env.lib.combine(env.rootDir, HtaccessFilename);
    EngineNeverOn(env, env.fs.ReadLines(ht), Initial);
  }

  /** Without a .htaccess file the file name is returned unchanged. */
  lemma NoHtaccessNoRewrite(env: Env)
    requires !env.fs.FileExists(env.lib.combine(env.rootDir, HtaccessFilename))
    ensures Rewritten(env) == Success(env.filename)
  {
  }

  /** Every RewriteRule line clears the pending condition, fired or not, engine on or off,
      well-formed or not, and changes nothing else. */
  lemma RuleClearsCondition(env: Env, st: RewriteState, line: string)
    requires ParseCommand(line).Some? && ParseCommand(line).value.name == "RewriteRule"
    requires Step(env, st, line).Continue?
    ensures Step(env, st, line).state == st.(condSet := false)
  {
  }

  /** A rule whose pending condition is false is skipped without consulting its pattern. */
  lemma FalseConditionSkipsRule(env: Env, st: RewriteState, line: string)
    requires ParseCommand(line).Some? && ParseCommand(line).value.name == "RewriteRule"
    requires st.condSet && !st.condValue
    ensures Step(env, st, line) == Continue(st.(condSet := false))
  {
  }

  /** A RewriteCond other than %{REQUEST_FILENAME} -f changes nothing. */
  lemma OtherConditionIgnored(env: Env, st: RewriteState, line: string)
    requires ParseCommand(line).Some? && ParseCommand(line).value.name == "RewriteCond"
    requires var c := ParseCondition(ParseCommand(line).value.params);
      c.None? || c.value.testString != RequestFilename || c.value.condition != FileTest
    ensures Step(env, st, line) == Continue(st)
  {
  }

  /** The value a "-f" condition tests: the file exists, negated by '!'. */
  function Tested(env: Env, c: Condition): bool
  {
    env.fs.FileExists(env.filename) != c.negated
  }

  /** Two "-f" conditions in a row: the first one sets the value, the second combines with
      it by OR when the first carries an OR flag and by AND otherwise; the OR flag of the
      second is what the next condition will see. */
  lemma TwoConditions(env: Env, st: RewriteState, c1: Condition, c2: Condition)
    requires !st.condSet
    requires c1.testString == RequestFilename && c1.condition == FileTest
    requires c2.testString == RequestFilename && c2.condition == FileTest
    ensures var s := ApplyCondition(env, ApplyCondition(env, st, c1), c2);
      s.condSet &&
      s.condValue == (if HasOrFlag(c1.options) then Tested(env, c1) || Tested(env, c2)
                      else Tested(env, c1) && Tested(env, c2)) &&
      s.orSet == HasOrFlag(c2.options)
  {
  }

  /** A rule that fires returns its substitution resolved under the base and the
      document root; an invalid pattern fails. */
  lemma FiringRuleTarget(env: Env, st: RewriteState, line: string, rule: Rule)
    requires ParseCommand(line).Some? && ParseCommand(line).value.name == "RewriteRule"
    requires ParseRule(ParseCommand(line).value.params) == Some(rule)
    requires st.engineOn && !(st.condSet && !st.condValue)
    ensures match env.lib.regexMatch(rule.pattern, env.url)
      case None => Step(env, st, line) == Return(Failure)
      case Some(m) =>
        if m != rule.negated then
          Step(env, st, line) == Return(Success(Target(env, st.baseDir, rule.substitution)))
        else Step(env, st, line) == Continue(st.(condSet := false))
  {
    DirectiveRule(env, st, ParseCommand(line).value);
  }

  /** A RewriteRule directive is ApplyRule: its name is none of the other directives. */
  lemma DirectiveRule(env: Env, st: RewriteState, cmd: Command)
    requires cmd.name == "RewriteRule"
    ensures Directive(env, st, cmd) == ApplyRule(env, st, cmd.params)
  {
    assert cmd.name[7] == 'R' && "RewriteBase"[7] == 'B' && "RewriteCond"[7] == 'C';
  }

  /** A line that parses is the directive it parses to. */
  lemma StepIsDirective(env: Env, st: RewriteState, line: string, cmd: Command)
    requires ParseCommand(line) == Some(cmd)
    ensures Step(env, st, line) == Directive(env, st, cmd)
  {
  }

  /** Two lines in a row. */
  lemma RunTwo(env: Env, l0: string, l1: string, st: RewriteState)
    ensures Run(env, [l0, l1], st) ==
              match Step(env, st, l0)
              case Continue(s) => Run(env, [l1], s)
              case Return(r) => Return(r)
  {
    assert [l0, l1][1..] == [l1];
  }

  /** Three lines in a row. */
  lemma RunThree(env: Env, l0: string, l1: string, l2: string, st: RewriteState)
    ensures Run(env, [l0, l1, l2], st) ==
              match Step(env, st, l0)
              case Continue(s) => Run(env, [l1, l2], s)
              case Return(r) => Return(r)
  {
    assert [l0, l1, l2][1..] == [l1, l2];
  }

  lemma EngineWord(w: string)
    requires w == "RewriteEngine"
    ensures IsWord(w)
  {
    NoSpaceIsWord(w);
  }

  lemma RuleWords(w: string, pattern: string)
    requires w == "RewriteRule" && pattern == "^(.*)$"
    ensures IsWord(w) && IsWord(pattern) && pattern[0] != '!'
  {
    NoSpaceIsWord(w);
    NoSpaceIsWord(pattern);
  }

  lemma CondWords(w: string, test: string, condition: string)
    requires w == "RewriteCond" && test == RequestFilename && condition == FileTest
    ensures IsWord(w) && IsWord(test) && IsWord(condition)
  {
    CondNameWord(w);
    RequestFilenameWord(test);
    FileTestWord(condition);
  }

  lemma CondNameWord(w: string)
    requires w == "RewriteCond"
    ensures IsWord(w)
  {
    NoSpaceIsWord(w);
  }

  lemma FileTestWord(w: string)
    requires w == FileTest
    ensures IsWord(w)
  {
    NoSpaceIsWord(w);
  }

  lemma RequestFilenameWord(w: string)
    requires w == RequestFilename
    ensures IsWord(w)
  {
    NoSpaceIsWord(w);
  }

  lemma EngineOnParses(line: string)
    requires line == "RewriteEngine on"
    ensures ParseCommand(line) == Some(Command("RewriteEngine", "on"))
  {
    var name, params := "RewriteEngine", "on";
    EngineOnText(line, name, params);
    EngineWord(name);
    DirectiveLine(name, params);
  }

  lemma EngineOnText(line: string, name: string, params: string)
    requires line == "RewriteEngine on" && name == "RewriteEngine" && params == "on"
    ensures line == name + " " + params && params[0] != ' '
  {
  }

  lemma SwitchOn()
    ensures EngineSwitch("on") == Some(true)
  {
    assert TrailingSpaces("on") == 0;
    assert Lower("on") == "on";
  }

  /** "RewriteEngine on" switches the engine on. */
  lemma EngineOnLine(env: Env, st: RewriteState, line: string)
    requires line == "RewriteEngine on"
    ensures Step(env, st, line) == Continue(st.(engineOn := true))
  {
    EngineOnParses(line);
    SwitchOn();
    StepIsDirective(env, st, line, Command("RewriteEngine", "on"));
  }

  /** "RewriteRule ^(.*)$ <substitution>" parses to the catch-all rule. */
  lemma CatchAllParses(line: string, substitution: string)
    requires line == "RewriteRule ^(.*)$ " + substitution && IsWord(substitution)
    ensures ParseCommand(line) == Some(Command("RewriteRule", "^(.*)$ " + substitution))
    ensures ParseRule("^(.*)$ " + substitution) == Some(Rule(false, "^(.*)$", substitution, ""))
  {
    var name, pattern := "RewriteRule", "^(.*)$";
    var params := "^(.*)$ " + substitution;
    CatchAllText(line, name, pattern, substitution, params);
    RuleWords(name, pattern);
    RuleRoundTrip(false, pattern, substitution, "");
    DirectiveLine(name, params);
  }

  lemma CatchAllText(line: string, name: string, pattern: string, substitution: string, params: string)
    requires line == "RewriteRule ^(.*)$ " + substitution
    requires name == "RewriteRule" && pattern == "^(.*)$" && params == "^(.*)$ " + substitution
    ensures line == name + " " + params && params[0] != ' '
    ensures params == (if false then "!" else "") + pattern + " " + substitution + OptionSuffix("")
  {
  }

  /** The catch-all rule fires when its pattern matches the URL. */
  lemma CatchAllRule(env: Env, st: RewriteState, line: string, substitution: string)
    requires line == "RewriteRule ^(.*)$ " + substitution && IsWord(substitution)
    requires st.engineOn && !(st.condSet && !st.condValue)
    requires env.lib.regexMatch("^(.*)$", env.url) == Some(true)
    ensures Step(env, st, line) == Return(Success(Target(env, st.baseDir, substitution)))
  {
    CatchAllParses(line, substitution);
    var cmd := Command("RewriteRule", "^(.*)$ " + substitution);
    StepIsDirective(env, st, line, cmd);
    DirectiveRule(env, st, cmd);
  }

  /** A rule line under a false pending condition is skipped. */
  lemma RuleLineSkipped(env: Env, st: RewriteState, line: string, substitution: string)
    requires line == "RewriteRule ^(.*)$ " + substitution && IsWord(substitution)
    requires st.condSet && !st.condValue
    ensures Step(env, st, line) == Continue(st.(condSet := false))
  {
    CatchAllParses(line, substitution);
    var cmd := Command("RewriteRule", "^(.*)$ " + substitution);
    StepIsDirective(env, st, line, cmd);
    DirectiveRule(env, st, cmd);
  }

  lemma MissingFileParses(line: string)
    requires line == "RewriteCond %{REQUEST_FILENAME} !-f"
    ensures ParseCommand(line) == Some(Command("RewriteCond", "%{REQUEST_FILENAME} !-f"))
    ensures ParseCondition("%{REQUEST_FILENAME} !-f") == Some(Condition(RequestFilename, true, FileTest, ""))
  {
    var name, params := "RewriteCond", "%{REQUEST_FILENAME} !-f";
    MissingFileText(line, name, params);
    CondWords(name, RequestFilename, FileTest);
    ConditionRoundTrip(RequestFilename, true, FileTest, "");
    DirectiveLine(name, params);
  }

  lemma MissingFileText(line: string, name: string, params: string)
    requires line == "RewriteCond %{REQUEST_FILENAME} !-f"
    requires name == "RewriteCond" && params == "%{REQUEST_FILENAME} !-f"
    ensures line == name + " " + params && params[0] != ' '
    ensures params == RequestFilename + " " + (if true then "!" else "") + FileTest + OptionSuffix("")
  {
  }

  /** "RewriteCond %{REQUEST_FILENAME} !-f" with the engine on records whether the
      request's file is missing. */
  lemma MissingFileCondition(env: Env, st: RewriteState, line: string)
    requires line == "RewriteCond %{REQUEST_FILENAME} !-f"
    requires st.engineOn
    ensures Step(env, st, line) ==
              Continue(ApplyCondition(env, st, Condition(RequestFilename, true, FileTest, "")))
  {
    MissingFileParses(line);
    var cmd := Command("RewriteCond", "%{REQUEST_FILENAME} !-f");
    StepIsDirective(env, st, line, cmd);
    DirectiveCond(env, st, cmd);
  }

  lemma IndexText(line: string, substitution: string)
    requires line == "RewriteRule ^(.*)$ /index.php" && substitution == "/index.php"
    ensures line == "RewriteRule ^(.*)$ " + substitution && IsWord(substitution)
    ensures RelativeTarget("", substitution) == "index.php"
  {
    NoSpaceIsWord(substitution);
  }

  lemma FallbackText(line: string, substitution: string)
    requires line == "RewriteRule ^(.*)$ /fallback.html" && substitution == "/fallback.html"
    ensures line == "RewriteRule ^(.*)$ " + substitution && IsWord(substitution)
    ensures RelativeTarget("", substitution) == "fallback.html"
  {
    NoSpaceIsWord(substitution);
  }

  /** "RewriteEngine on" then "RewriteRule ^(.*)$ /index.php" sends every request whose
      URL the pattern matches to index.php under the document root. */
  lemma IndexPhpExample(env: Env, engine: string, rule: string)
    requires engine == "RewriteEngine on" && rule == "RewriteRule ^(.*)$ /index.php"
    requires var ht := env.lib.combine(env.rootDir, HtaccessFilename);
      env.fs.FileExists(ht) && env.fs.ReadLines(ht) == [engine, rule]
    requires env.lib.regexMatch("^(.*)$", env.url) == Some(true)
    ensures Rewritten(env) == Success(env.lib.urlDecode(env.lib.combine(env.rootDir, "index.php")))
  {
    IndexText(rule, "/index.php");
    RunTwo(env, engine, rule, Initial);
    EngineOnLine(env, Initial, engine);
    CatchAllRule(env, Initial.(engineOn := true), rule, "/index.php");
  }

  /** A "!-f" condition before the catch-all rule: an existing file is served as it is,
      any other request goes to the fallback page. */
  lemma FallbackExample(env: Env, engine: string, cond: string, rule: string)
    requires engine == "RewriteEngine on" && cond == "RewriteCond %{REQUEST_FILENAME} !-f"
    requires rule == "RewriteRule ^(.*)$ /fallback.html"
    requires var ht := env.lib.combine(env.rootDir, HtaccessFilename);
      env.fs.FileExists(ht) && env.fs.ReadLines(ht) == [engine, cond, rule]
    requires env.lib.regexMatch("^(.*)$", env.url) == Some(true)
    ensures env.fs.FileExists(env.filename) ==> Rewritten(env) == Success(env.filename)
    ensures !env.fs.FileExists(env.filename) ==>
              Rewritten(env) == Success(env.lib.urlDecode(env.lib.combine(env.rootDir, "fallback.html")))
  {
    FallbackText(rule, "/fallback.html");
    var st1 := Initial.(engineOn := true);
    RunThree(env, engine, cond, rule, Initial);
    EngineOnLine(env, Initial, engine);
    FallbackTail(env, st1, cond, rule, "/fallback.html");
  }

  /** The last two lines of the fallback example, with the engine on. */
  lemma FallbackTail(env: Env, st: RewriteState, cond: string, rule: string, sub: string)
    requires cond == "RewriteCond %{REQUEST_FILENAME} !-f"
    requires rule == "RewriteRule ^(.*)$ " + sub && IsWord(sub)
    requires st.engineOn && !st.condSet
    requires env.lib.regexMatch("^(.*)$", env.url) == Some(true)
    ensures env.fs.FileExists(env.filename) ==> Run(env, [cond, rule], st).Continue?
    ensures !env.fs.FileExists(env.filename) ==>
              Run(env, [cond, rule], st) == Return(Success(Target(env, st.baseDir, sub)))
  {
    RunTwo(env, cond, rule, st);
    MissingFileCondition(env, st, cond);
    var st2 := ApplyCondition(env, st, Condition(RequestFilename, true, FileTest, ""));
    MissingFileState(env, st);
    if env.fs.FileExists(env.filename) {
      RuleLineSkipped(env, st2, rule, sub);
    } else {
      CatchAllRule(env, st2, rule, sub);
    }
  }

  /** After the "!-f" condition the pending value says whether the file is missing. */
  lemma MissingFileState(env: Env, st: RewriteState)
    requires st.engineOn && !st.condSet
    ensures var st2 := ApplyCondition(env, st, Condition(RequestFilename, true, FileTest, ""));
      st2.engineOn && st2.condSet && st2.condValue == !env.fs.FileExists(env.filename) &&
      st2.baseDir == st.baseDir
  {
  }

  /** A RewriteCond directive with the engine on is ApplyCondition on its parsed form. */
  lemma DirectiveCond(env: Env, st: RewriteState, cmd: Command)
    requires cmd.name == "RewriteCond" && st.engineOn
    ensures Directive(env, st, cmd) ==
              match ParseCondition(cmd.params)
              case None => Continue(st)
              case Some(c) => Continue(ApplyCondition(env, st, c))
  {
    assert cmd.name[7] == 'C' && "RewriteBase"[7] == 'B';
  }
}
