/** ApplyHtaccess (SimpleWebServer.cs:429-609): a single pass over the lines of the
    document root's .htaccess file that may replace the request's file name. */
module Htaccess {
  import opened Wrappers
  import opened Platform
  import opened HtaccessSyntax

  const HtaccessFilename: string := ".htaccess"
  const RequestFilename: string := "%{REQUEST_FILENAME}"
  const FileTest: string := "-f"

  /** What one request's rewriting works with: the file system, the library, the document
      root, the request URL and the file name it maps to before rewriting. */
  datatype Env = Env(fs: FileSystem, lib: Library, rootDir: string, url: string, filename: string)

  /** The five locals of ApplyHtaccess. */
  datatype RewriteState = RewriteState(
    engineOn: bool, condSet: bool, condValue: bool, orSet: bool, baseDir: string)

  const Initial := RewriteState(false, false, false, false, "")

  /** After one line: go on with a new state, or return (Failure stands for the exception an
      invalid rule pattern throws from the Regex constructor). */
  datatype Flow = Continue(state: RewriteState) | Return(result: Result<string>)

  /** The relative path a substitution resolves to: a leading '/' is dropped; otherwise the
      base is prefixed and a leading '/' of the combination is dropped. */
  function RelativeTarget(baseDir: string, substitution: string): (urlRel: string)
    requires substitution != []
    ensures substitution[0] == '/' ==> urlRel == substitution[1..]
    ensures substitution[0] != '/' && (baseDir + substitution)[0] == '/' ==>
              "/" + urlRel == baseDir + substitution
    ensures substitution[0] != '/' && (baseDir + substitution)[0] != '/' ==>
              urlRel == baseDir + substitution
  {
    if substitution[0] == '/' then substitution[1..]
    else
      var urlRel := baseDir + substitution;
      if urlRel[0] == '/' then urlRel[1..] else urlRel
  }

  /** The file name a firing rule returns: the resolved path combined with the document root, URL-decoded. */
  function Target(env: Env, baseDir: string, substitution: string): string
    requires substitution != []
  {
    env.lib.urlDecode(env.lib.combine(env.rootDir, RelativeTarget(baseDir, substitution)))
  }

  /** The effect of a RewriteCond line with the engine on. */
  function ApplyCondition(env: Env, st: RewriteState, c: Condition): (st': RewriteState)
    ensures st'.engineOn == st.engineOn && st'.baseDir == st.baseDir
  {
    if c.testString == RequestFilename && c.condition == FileTest then
      var found := env.fs.FileExists(env.filename) != c.negated;
      st.(condSet := true,
          condValue := if !st.condSet then found
                       else if st.orSet then st.condValue || found
                       else st.condValue && found,
          orSet := HasOrFlag(c.options))
    else st
  }

  /** The effect of a RewriteRule line. */
  function ApplyRule(env: Env, st: RewriteState, params: string): Flow
  {
    if !st.engineOn || (st.condSet && !st.condValue) then Continue(st.(condSet := false))
    else
      var st' := st.(condSet := false);
      match ParseRule(params)
      case None => Continue(st')
      case Some(rule) =>
        match env.lib.regexMatch(rule.pattern, env.url)
        case None => Return(Failure)
        case Some(matched) =>
          if matched != rule.negated then Return(Success(Target(env, st.baseDir, rule.substitution)))
          else Continue(st')
  }

  /** One line of the file. Directive names are compared case-sensitively; lines that do
      not match cmdPattern, comments and unknown directives change nothing. */
  function Step(env: Env, st: RewriteState, line: string): Flow
  {
    match ParseCommand(line)
    case None => Continue(st)
    case Some(cmd) => Directive(env, st, cmd)
  }

  /** The effect of one parsed directive line. */
  function Directive(env: Env, st: RewriteState, cmd: Command): Flow
  {
    if cmd.name == [] || cmd.name[0] == '#' then Continue(st)
    else if cmd.name == "RewriteEngine" then
      if EngineSwitch(cmd.params) == Some(true) then Continue(st.(engineOn := true))
      else Return(Success(env.filename))
    else if cmd.name == "RewriteBase" then
      if IsWord(cmd.params) then Continue(st.(baseDir := cmd.params)) else Continue(st)
    else if cmd.name == "RewriteCond" then
      if !st.engineOn then Continue(st)
      else
        match ParseCondition(cmd.params)
        case None => Continue(st)
        case Some(c) => Continue(ApplyCondition(env, st, c))
    else if cmd.name == "RewriteRule" then ApplyRule(env, st, cmd.params)
    else Continue(st)
  }

  /** The lines in order, stopping at the first that returns. */
  function Run(env: Env, lines: seq<string>, st: RewriteState): Flow
    decreases |lines|
  {
    if lines == [] then Continue(st)
    else
      match Step(env, st, lines[0])
      case Continue(st') => Run(env, lines[1..], st')
      case Return(r) => Return(r)
  }

  /** The file name ApplyHtaccess returns (Failure: it throws). */
  function Rewritten(env: Env): Result<string>
  {
    var ht := env.lib.combine(env.rootDir, HtaccessFilename);
    if !env.fs.FileExists(ht) then Success(env.filename)
    else
      match Run(env, env.fs.ReadLines(ht), Initial)
      case Continue(_) => Success(env.filename)
      case Return(r) => r
  }

  /** ApplyHtaccess: reads the file line by line, updating the five locals (kept together
      as a RewriteState) until a line returns or the file ends. */
  method ApplyHtaccess(env: Env) returns (r: Result<string>)
    ensures r == Rewritten(env)
  {
    var ht := env.lib.combine(env.rootDir, HtaccessFilename);
    if !env.fs.FileExists(ht) {
      return Success(env.filename);
    }

    var st := Initial;
    var lines := env.fs.ReadLines(ht);
    var i := 0;
    while i < |lines|
      invariant 0 <= i <= |lines|
      invariant Run(env, lines[i..], st) == Run(env, lines, Initial)
    {
      assert lines[i..][1..] == lines[i + 1..];
      var flow := ProcessLine(env, st, lines[i]);
      if flow.Return? {
        return flow.result;
      }
      st := flow.state;
      i := i + 1;
    }
    return Success(env.filename);
  }

  /** The body of the read loop for one line: the directive switch. */
  method ProcessLine(env: Env, st: RewriteState, line: string) returns (flow: Flow)
    ensures flow == Step(env, st, line)
  {
    var match1 := ParseCommand(line);
    if match1.None? {
      return Continue(st);
    }
    var command := match1.value.name;
    var parameters := match1.value.params;
    if command[0] == '#' {
      return Continue(st);
    }

    if command == "RewriteEngine" {
      var onOff := EngineSwitch(parameters);
      if onOff != Some(true) {
        return Return(Success(env.filename));
      }
      return Continue(st.(engineOn := true));
    } else if command == "RewriteBase" {
      if IsWord(parameters) {
        return Continue(st.(baseDir := parameters));
      }
      return Continue(st);
    } else if command == "RewriteCond" {
      if !st.engineOn {
        return Continue(st);
      }
      var match2 := ParseCondition(parameters);
      if match2.None? {
        return Continue(st);
      }
      var st' := ConditionLine(env, st, match2.value);
      return Continue(st');
    } else if command == "RewriteRule" {
      flow := RuleLine(env, st, parameters);
    } else {
      return Continue(st);
    }
  }

  /** A recognised RewriteCond with the engine on. */
  method ConditionLine(env: Env, st: RewriteState, c: Condition) returns (st': RewriteState)
    ensures st' == ApplyCondition(env, st, c)
  {
    var isConditionSet, conditionValue, isOrSet := st.condSet, st.condValue, st.orSet;
    if c.testString == RequestFilename && c.condition == FileTest {
      var found := env.fs.FileExists(env.filename);
      if c.negated {
        found := !found;
      }
      if !isConditionSet {
        isConditionSet := true;
        conditionValue := found;
      } else if isOrSet {
        conditionValue := conditionValue || found;
      } else {
        conditionValue := conditionValue && found;
      }
      isOrSet := HasOrFlag(c.options);
    }
    st' := st.(condSet := isConditionSet, condValue := conditionValue, orSet := isOrSet);
  }

  /** A RewriteRule line. */
  method RuleLine(env: Env, st: RewriteState, parameters: string) returns (flow: Flow)
    ensures flow == ApplyRule(env, st, parameters)
  {
    if !st.engineOn || (st.condSet && !st.condValue) {
      return Continue(st.(condSet := false));
    }
    var st' := st.(condSet := false);
    var match2 := ParseRule(parameters);
    if match2.None? {
      return Continue(st');
    }
    var rule := match2.value;
    var match3 := env.lib.regexMatch(rule.pattern, env.url);
    if match3.None? {
      return Return(Failure);
    }
    var success := match3.value;
    if rule.negated {
      success := !success;
    }
    if success {
      return Return(Success(Target(env, st.baseDir, rule.substitution)));
    }
    return Continue(st');
  }
}
