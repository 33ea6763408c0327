/** The hot-reloadable blocklist: compiled lists, their merge with the hardcoded defaults, and any history of reloads. */
module Blocklists {
  import opened Wrappers

  /** The regular-expression engine and case folding of the host, left abstract. */
  datatype Engine = Engine(compiles: string -> bool, matches: (string, string) -> bool, lower: string -> string)

  datatype Config = Config(
    apps: seq<string>,
    authPatterns: seq<string>,
    urlPatterns: seq<string>,
    titlePatterns: seq<string>,
    sensitiveRoles: seq<string>)

  /** A regular expression is represented by its pattern. */
  datatype Compiled = Compiled(
    apps: set<string>,
    authPatterns: set<string>,
    urlRegexps: seq<string>,
    titleRegexps: seq<string>,
    sensitiveInputs: set<string>)

  datatype Window = Window(process: string, title: string, url: string, role: string)

  /** What a reload finds. */
  datatype File = Unreadable | Malformed | Parsed(cfg: Config)

  predicate Substring(s: string, t: string) { t <= s || (s != "" && Substring(s[1..], t)) }

  // ---- Blocking ----

  predicate AnyMatch(e: Engine, patterns: seq<string>, text: string) {
    exists i :: 0 <= i < |patterns| && e.matches(patterns[i], text)
  }

  predicate Blocks(e: Engine, c: Compiled, w: Window) {
    || e.lower(w.process) in c.apps
    || (exists p :: p in c.authPatterns && Substring(e.lower(w.process), p))
    || (w.url != "" && AnyMatch(e, c.urlRegexps, w.url))
    || (w.title != "" && AnyMatch(e, c.titleRegexps, w.title))
    || (w.role != "" && e.lower(w.role) in c.sensitiveInputs)
  }

  lemma {:induction false} SubstringIs(s: string, t: string)
    ensures Substring(s, t) <==> exists a: string, b: string :: s == a + t + b
    decreases |s|
  {
    if t <= s {
      assert s == "" + t + s[|t|..];
    } else if s != "" {
      SubstringIs(s[1..], t);
      hide Substring;
      if a: string, b: string :| s[1..] == a + t + b {
        ShiftRight(s, a, t, b);
      }
      if a: string, b: string :| s == a + t + b {
        ShiftLeft(s, a, t, b);
      }
    }
  }

  lemma ShiftRight(s: string, a: string, t: string, b: string)
    requires s != "" && s[1..] == a + t + b
    ensures s == ([s[0]] + a) + t + b
  {
    assert s == [s[0]] + s[1..];
  }

  lemma ShiftLeft(s: string, a: string, t: string, b: string)
    requires s == a + t + b && !(t <= s)
    ensures a != "" && s != "" && s[1..] == a[1..] + t + b
  {
    assert a == "" ==> s == t + b;
  }

  /** What the five checks cover. */
  lemma BlocksExactly(e: Engine, c: Compiled, w: Window)
    ensures Blocks(e, c, w)
       <==> || e.lower(w.process) in c.apps
            || (exists p, a: string, b: string :: p in c.authPatterns && e.lower(w.process) == a + p + b)
            || (w.url != "" && exists i :: 0 <= i < |c.urlRegexps| && e.matches(c.urlRegexps[i], w.url))
            || (w.title != "" && exists i :: 0 <= i < |c.titleRegexps| && e.matches(c.titleRegexps[i], w.title))
            || (w.role != "" && e.lower(w.role) in c.sensitiveInputs)
  {
    hide Substring;
    forall p | p in c.authPatterns
      ensures Substring(e.lower(w.process), p) <==> exists a: string, b: string :: e.lower(w.process) == a + p + b
    {
      SubstringIs(e.lower(w.process), p);
    }
  }

  // ---- Compiling and merging ----

  function Lowered(e: Engine, xs: seq<string>): set<string> { set x | x in xs :: e.lower(x) }

  predicate AllCompile(e: Engine, patterns: seq<string>) {
    forall i :: 0 <= i < |patterns| ==> e.compiles(patterns[i])
  }

  /** One bad pattern rejects the whole file. */
  function CompileConfig(e: Engine, cfg: Config): Option<Compiled> {
    if AllCompile(e, cfg.urlPatterns) && AllCompile(e, cfg.titlePatterns)
    then Some(Compiled(Lowered(e, cfg.apps), Lowered(e, cfg.authPatterns), cfg.urlPatterns, cfg.titlePatterns,
                       Lowered(e, cfg.sensitiveRoles)))
    else None
  }

  method LowerAll(e: Engine, xs: seq<string>) returns (r: set<string>)
    ensures r == Lowered(e, xs)
  {
    r := {};
    for i := 0 to |xs|
      invariant r == Lowered(e, xs[..i])
    {
      assert forall x :: x in xs[..i + 1] <==> x in xs[..i] || x == xs[i];
      assert Lowered(e, xs[..i + 1]) == Lowered(e, xs[..i]) + {e.lower(xs[i])};
      r := r + {e.lower(xs[i])};
    }
    assert xs[..|xs|] == xs;
  }

  method CompilePatterns(e: Engine, patterns: seq<string>) returns (r: Option<seq<string>>)
    ensures r == if AllCompile(e, patterns) then Some(patterns) else None
  {
    var done: seq<string> := [];
    for i := 0 to |patterns|
      invariant done == patterns[..i] && AllCompile(e, done)
    {
      if !e.compiles(patterns[i]) {
        return None;
      }
      done := done + [patterns[i]];
    }
    assert patterns[..|patterns|] == patterns;
    return Some(done);
  }

  method Compile(e: Engine, cfg: Config) returns (r: Option<Compiled>)
    ensures r == CompileConfig(e, cfg)
  {
    var apps := LowerAll(e, cfg.apps);
    var auth := LowerAll(e, cfg.authPatterns);
    var roles := LowerAll(e, cfg.sensitiveRoles);
    var urls := CompilePatterns(e, cfg.urlPatterns);
    if urls.None? {
      return None;
    }
    var titles := CompilePatterns(e, cfg.titlePatterns);
    if titles.None? {
      return None;
    }
    return Some(Compiled(apps, auth, urls.value, titles.value, roles));
  }

  function Merged(src: Compiled, defaults: Compiled): Compiled {
    Compiled(defaults.apps + src.apps,
             defaults.authPatterns + src.authPatterns,
             defaults.urlRegexps + src.urlRegexps,
             defaults.titleRegexps + src.titleRegexps,
             defaults.sensitiveInputs + src.sensitiveInputs)
  }

  lemma AnyMatchConcat(e: Engine, a: seq<string>, b: seq<string>, text: string)
    ensures AnyMatch(e, a + b, text) <==> AnyMatch(e, a, text) || AnyMatch(e, b, text)
  {
    if AnyMatch(e, a, text) {
      var i :| 0 <= i < |a| && e.matches(a[i], text);
      assert (a + b)[i] == a[i];
    }
    if AnyMatch(e, b, text) {
      var i :| 0 <= i < |b| && e.matches(b[i], text);
      assert (a + b)[|a| + i] == b[i];
    }
  }

  /** Merging loses nothing and adds nothing: the merged list blocks what either list blocks. */
  lemma MergedBlocks(e: Engine, src: Compiled, defaults: Compiled, w: Window)
    ensures Blocks(e, Merged(src, defaults), w) <==> Blocks(e, defaults, w) || Blocks(e, src, w)
  {
    hide AnyMatch, Substring;
    AnyMatchConcat(e, defaults.urlRegexps, src.urlRegexps, w.url);
    AnyMatchConcat(e, defaults.titleRegexps, src.titleRegexps, w.title);
  }

  // ---- Reload histories ----

  /** A reload that cannot be read, parsed or compiled leaves the active list alone. */
  function Reloaded(e: Engine, active: Compiled, defaults: Compiled, file: File): Compiled {
    match file
    case Parsed(cfg) =>
      (match CompileConfig(e, cfg)
       case Some(c) => Merged(c, defaults)
       case None => active)
    case _ => active
  }

  function ReloadedAll(e: Engine, active: Compiled, defaults: Compiled, files: seq<File>): Compiled {
    if files == [] then active
    else Reloaded(e, ReloadedAll(e, active, defaults, files[..|files| - 1]), defaults, files[|files| - 1])
  }

  /** The last file of a history that compiled. */
  function LastGood(e: Engine, files: seq<File>): Option<Compiled> {
    if files == [] then None
    else
      var last := files[|files| - 1];
      if last.Parsed? && CompileConfig(e, last.cfg).Some? then CompileConfig(e, last.cfg)
      else LastGood(e, files[..|files| - 1])
  }

  /**
   After any history of good, malformed, uncompilable and unreadable files a window is blocked exactly when the defaults
   block it or the last file that compiled does.
   */
  lemma {:induction false} HistoryBlocks(e: Engine, defaults: Compiled, files: seq<File>, w: Window)
    ensures Blocks(e, ReloadedAll(e, defaults, defaults, files), w)
       <==> Blocks(e, defaults, w) || (LastGood(e, files).Some? && Blocks(e, LastGood(e, files).value, w))
  {
    hide Blocks, CompileConfig, Merged;
    if files != [] {
      var last := files[|files| - 1];
      HistoryBlocks(e, defaults, files[..|files| - 1], w);
      if last.Parsed? && CompileConfig(e, last.cfg).Some? {
        MergedBlocks(e, CompileConfig(e, last.cfg).value, defaults, w);
      }
    }
  }

  /** The file can be read and parsed, and all its regular expressions compile. */
  predicate Usable(e: Engine, file: File) {
    && file.Parsed?
    && (forall i :: 0 <= i < |file.cfg.urlPatterns| ==> e.compiles(file.cfg.urlPatterns[i]))
    && (forall i :: 0 <= i < |file.cfg.titlePatterns| ==> e.compiles(file.cfg.titlePatterns[i]))
  }

  lemma {:induction false} LastGoodIs(e: Engine, files: seq<File>, k: nat)
    requires k < |files| && Usable(e, files[k])
    requires forall j :: k < j < |files| ==> !Usable(e, files[j])
    ensures CompileConfig(e, files[k].cfg).Some? && LastGood(e, files) == CompileConfig(e, files[k].cfg)
    decreases |files|
  {
    if k < |files| - 1 {
      assert !Usable(e, files[|files| - 1]);
      LastGoodIs(e, files[..|files| - 1], k);
    }
  }

  /** What the entries of a file cover, as the file spells them. */
  lemma CompiledBlocks(e: Engine, file: File, w: Window)
    requires Usable(e, file)
    ensures CompileConfig(e, file.cfg).Some?
    ensures var cfg, pname := file.cfg, e.lower(w.process);
            Blocks(e, CompileConfig(e, cfg).value, w)
            <==> || (exists i :: 0 <= i < |cfg.apps| && e.lower(cfg.apps[i]) == pname)
                 || (exists i, a: string, b: string ::
                       0 <= i < |cfg.authPatterns| && pname == a + e.lower(cfg.authPatterns[i]) + b)
                 || (w.url != "" && exists i :: 0 <= i < |cfg.urlPatterns| && e.matches(cfg.urlPatterns[i], w.url))
                 || (w.title != "" && exists i :: 0 <= i < |cfg.titlePatterns| && e.matches(cfg.titlePatterns[i], w.title))
                 || (w.role != "" && exists i :: 0 <= i < |cfg.sensitiveRoles|
                                                 && e.lower(cfg.sensitiveRoles[i]) == e.lower(w.role))
  {
    hide Blocks, Lowered;
    var cfg, pname := file.cfg, e.lower(w.process);
    BlocksExactly(e, CompileConfig(e, cfg).value, w);
    LoweredIs(e, cfg.apps);
    LoweredIs(e, cfg.authPatterns);
    LoweredIs(e, cfg.sensitiveRoles);
  }

  lemma LoweredIs(e: Engine, xs: seq<string>)
    ensures forall y :: y in Lowered(e, xs) <==> exists i :: 0 <= i < |xs| && e.lower(xs[i]) == y
    ensures forall i :: 0 <= i < |xs| ==> e.lower(xs[i]) in Lowered(e, xs)
  {
    forall i | 0 <= i < |xs|
      ensures e.lower(xs[i]) in Lowered(e, xs)
    {
      assert xs[i] in xs;
    }
  }

  /**
   The last usable file decides, beside the defaults: after any history a window is blocked exactly when the defaults block
   it, or an entry of that file covers its process, its URL, its title or its role.
   */
  lemma LastFileBlocks(e: Engine, defaults: Compiled, files: seq<File>, k: nat, w: Window)
    requires k < |files| && Usable(e, files[k])
    requires forall j :: k < j < |files| ==> !Usable(e, files[j])
    ensures var cfg, pname := files[k].cfg, e.lower(w.process);
            Blocks(e, ReloadedAll(e, defaults, defaults, files), w)
            <==> || Blocks(e, defaults, w)
                 || (exists i :: 0 <= i < |cfg.apps| && e.lower(cfg.apps[i]) == pname)
                 || (exists i, a: string, b: string ::
                       0 <= i < |cfg.authPatterns| && pname == a + e.lower(cfg.authPatterns[i]) + b)
                 || (w.url != "" && exists i :: 0 <= i < |cfg.urlPatterns| && e.matches(cfg.urlPatterns[i], w.url))
                 || (w.title != "" && exists i :: 0 <= i < |cfg.titlePatterns| && e.matches(cfg.titlePatterns[i], w.title))
                 || (w.role != "" && exists i :: 0 <= i < |cfg.sensitiveRoles|
                                                 && e.lower(cfg.sensitiveRoles[i]) == e.lower(w.role))
  {
    hide Blocks, CompileConfig, ReloadedAll, LastGood;
    HistoryBlocks(e, defaults, files, w);
    LastGoodIs(e, files, k);
    CompiledBlocks(e, files[k], w);
  }

  /** A file that cannot be used blocks nothing beyond the defaults; it does not block everything. */
  lemma UnusableFileBlocksOnlyDefaults(e: Engine, defaults: Compiled, file: File, w: Window)
    requires !Usable(e, file)
    ensures Blocks(e, ReloadedAll(e, defaults, defaults, [file]), w) <==> Blocks(e, defaults, w)
  {
    assert !(file.Parsed? && CompileConfig(e, file.cfg).Some?);
    hide Blocks, CompileConfig, Merged;
    HistoryBlocks(e, defaults, [file], w);
    assert [file][..0] == [];
    assert LastGood(e, []).None?;
  }

  datatype Reason = Pass | Unavailable | AppMatch | AuthProcess | UrlPattern | TitlePattern | SensitiveInput

  class Blocklist {
    const e: Engine
    const defaults: Compiled
    var current: Option<Compiled>

    constructor (e: Engine, defaults: Compiled)
      ensures this.e == e && this.defaults == defaults && current == Some(defaults)
    {
      this.e := e;
      this.defaults := defaults;
      current := Some(defaults);
    }

    /** The new list is swapped in only when everything worked. */
    method LoadFromFile(file: File) returns (ok: bool)
      requires current.Some?
      modifies this`current
      ensures current == Some(Reloaded(e, old(current).value, defaults, file))
      ensures ok <==> Usable(e, file)
      ensures !ok ==> current == old(current)
    {
      match file
      case Unreadable => return false;
      case Malformed => return false;
      case Parsed(cfg) =>
        var compiled := Compile(e, cfg);
        if compiled.None? {
          return false;
        }
        current := Some(Merged(compiled.value, defaults));
        return true;
    }

    /** The decision list; without any list everything is blocked. */
    method Check(w: Window) returns (blocked: bool, reason: Reason)
      ensures blocked <==> current.None? || Blocks(e, current.value, w)
      ensures !blocked <==> reason == Pass
      ensures reason == Unavailable <==> current.None?
      ensures current.Some? ==>
                var c, pname := current.value, e.lower(w.process);
                var byApp := pname in c.apps;
                var byAuth := exists p, a: string, b: string :: p in c.authPatterns && pname == a + p + b;
                var byUrl := w.url != "" && exists i :: 0 <= i < |c.urlRegexps| && e.matches(c.urlRegexps[i], w.url);
                var byTitle := w.title != "" && exists i :: 0 <= i < |c.titleRegexps| && e.matches(c.titleRegexps[i], w.title);
                var byRole := w.role != "" && e.lower(w.role) in c.sensitiveInputs;
                && (blocked <==> byApp || byAuth || byUrl || byTitle || byRole)
                && reason == if byApp then AppMatch else if byAuth then AuthProcess else if byUrl then UrlPattern
                             else if byTitle then TitlePattern else if byRole then SensitiveInput else Pass
    {
      hide Substring;
      if current.None? {
        return true, Unavailable;
      }
      var c := current.value;
      var pname := e.lower(w.process);
      if pname in c.apps {
        return true, AppMatch;
      }
      forall p | p in c.authPatterns
        ensures Substring(pname, p) <==> exists a: string, b: string :: pname == a + p + b
      {
        SubstringIs(pname, p);
      }
      var rest := c.authPatterns;
      while rest != {}
        invariant forall p :: p in c.authPatterns - rest ==> !Substring(pname, p)
        invariant rest <= c.authPatterns
        decreases rest
      {
        var p :| p in rest;
        if Substring(pname, p) {
          return true, AuthProcess;
        }
        rest := rest - {p};
      }
      if w.url != "" {
        var hit := FirstMatch(c.urlRegexps, w.url);
        if hit {
          return true, UrlPattern;
        }
      }
      if w.title != "" {
        var hit := FirstMatch(c.titleRegexps, w.title);
        if hit {
          return true, TitlePattern;
        }
      }
      if w.role != "" && e.lower(w.role) in c.sensitiveInputs {
        return true, SensitiveInput;
      }
      return false, Pass;
    }

    method FirstMatch(patterns: seq<string>, text: string) returns (hit: bool)
      ensures hit <==> AnyMatch(e, patterns, text)
    {
      for i := 0 to |patterns|
        invariant forall j :: 0 <= j < i ==> !e.matches(patterns[j], text)
      {
        if e.matches(patterns[i], text) {
          return true;
        }
      }
      return false;
    }
  }
}
