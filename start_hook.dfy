/** The `start` hook of the execute strategy (`execute_start` in
    src/lxc/execute.c): count the caller's NULL-terminated vector, size a
    heap array for the helper's vector, fill it, and exec it. */
module StartHook {
  import opened Wrappers
  import InitResolver

  /** The handler fields `execute_start` reads: the container name, its
      lxcpath and `handler->conf->rootfs.path` (only its nullness matters). */
  datatype Handler = Handler(name: string, lxcpath: string, rootfsPath: Option<string>)

  /** `struct execute_args`: the caller's vector, entries `None` for NULL,
      and the quiet flag. */
  datatype ExecuteArgs = ExecuteArgs(argv: seq<Option<string>>, quiet: bool)

  /** A C argument vector is usable only when it holds a NULL terminator. */
  predicate NullTerminated(v: seq<Option<string>>)
  {
    None in v
  }

  /** The index of the first NULL of a terminated vector. */
  function FirstNull(v: seq<Option<string>>): (n: nat)
    requires NullTerminated(v)
    ensures n < |v| && v[n] == None && None !in v[..n]
  {
    if v[0] == None then 0
    else
      var n := 1 + FirstNull(v[1..]);
      assert v[..n] == [v[0]] + v[1..][..n - 1];
      n
  }

  /** The strings an exec reads from a vector: those before its first NULL. */
  function LogicalArgv(v: seq<Option<string>>): seq<string>
    decreases |v|
  {
    if v == [] || v[0] == None then [] else [v[0].value] + LogicalArgv(v[1..])
  }

  /** A list of strings as non-NULL vector entries. */
  function Lift(s: seq<string>): (v: seq<Option<string>>)
    ensures |v| == |s| && None !in v
  {
    seq(|s|, k requires 0 <= k < |s| => Some(s[k]))
  }

  /** `argc_add` of execute_start: the slots reserved besides the caller's
      vector (helper path, `--`, the final NULL and one spare, plus the
      optional flags). */
  function ArgcAdd(quiet: bool, rootfsPath: Option<string>, logLevel: Option<string>): nat
  {
    4 + (if quiet then 1 else 0)
      + (if rootfsPath.None? then 4 + (if logLevel.Some? then 2 else 0) else 0)
  }

  /** The helper options that sit between the helper path and `--`.
      `logLevel` is the name of the configured log priority when
      `lxc_log_has_valid_level()` holds, `None` otherwise. */
  function HelperOptions(quiet: bool, rootfsPath: Option<string>, logLevel: Option<string>,
                         name: string, lxcpath: string): seq<string>
  {
    (if quiet then ["--quiet"] else [])
      + (if rootfsPath.None? then
           ["--name", name, "--lxcpath", lxcpath]
             + (if logLevel.Some? then ["--logpriority", logLevel.value] else [])
         else [])
  }

  /** The vector handed to execvp: helper path, options, `--`, the caller's
      counted vector (its NULL included) and one more NULL. */
  function HelperArgv(initPath: string, quiet: bool, rootfsPath: Option<string>, logLevel: Option<string>,
                      name: string, lxcpath: string, counted: seq<Option<string>>): seq<Option<string>>
  {
    Lift([initPath] + HelperOptions(quiet, rootfsPath, logLevel, name, lxcpath) + ["--"]) + counted + [None]
  }

  /** `execute_start`. `logLevel` stands for the two logging queries (taken
      to return the same answer both times); `argvAllocated`,
      `bufAllocated` are the outcomes of the two mallocs and `execSucceeds`
      that of execvp. `status` is `None` when execvp succeeded (the hook
      never returns), `execArgv` the vector execvp was called with (`None`
      when it was not called) and `capacity` the slots allocated. */
  method ExecuteStart(handler: Handler, args: ExecuteArgs, logLevel: Option<string>,
                      env: InitResolver.Env, argvAllocated: bool, bufAllocated: bool, execSucceeds: bool)
    returns (status: Option<int>, execArgv: Option<seq<Option<string>>>, capacity: nat)
    requires NullTerminated(args.argv)
    ensures capacity == FirstNull(args.argv) + 1 + ArgcAdd(args.quiet, handler.rootfsPath, logLevel)
    ensures execArgv.Some? <==> argvAllocated && InitResolver.Resolve(env, bufAllocated).Some?
    ensures execArgv.Some? ==>
      execArgv.value == HelperArgv(InitResolver.Resolve(env, bufAllocated).value, args.quiet,
                                   handler.rootfsPath, logLevel, handler.name, handler.lxcpath,
                                   args.argv[..FirstNull(args.argv) + 1])
    ensures execArgv.Some? ==> |execArgv.value| == capacity - 1
    ensures status == (if execArgv.Some? && execSucceeds then None else Some(1))
  {
    // count the caller's entries, the terminating NULL included
    var argc := 0;
    var more := true;
    while more
      invariant argc <= FirstNull(args.argv) + 1
      invariant more ==> argc <= FirstNull(args.argv)
      invariant !more ==> argc == FirstNull(args.argv) + 1
      decreases |args.argv| - argc, more
    {
      more := args.argv[argc] != None;
      argc := argc + 1;
    }

    var argcAdd := 4;
    if args.quiet {
      argcAdd := argcAdd + 1;
    }
    if handler.rootfsPath.None? {
      argcAdd := argcAdd + 4;
      if logLevel.Some? {
        argcAdd := argcAdd + 2;
      }
    }
    capacity := argc + argcAdd;

    if !argvAllocated {
      return Some(1), None, capacity;
    }
    var argv := new Option<string>[capacity];

    var initPath, _ := InitResolver.ChooseInit(env, bufAllocated);
    if initPath.None? {
      return Some(1), None, capacity;
    }

    var i := FillArgv(argv, initPath.value, args.quiet, handler.rootfsPath, logLevel,
                      handler.name, handler.lxcpath, args.argv, argc);
    execArgv := Some(argv[..i]);
    status := if execSucceeds then None else Some(1);
  }

  /** The fill of execute_start: writes the helper's vector into `argv`
      through the index `i`, which ends one short of the allocation. */
  method FillArgv(argv: array<Option<string>>, initPath: string, quiet: bool, rootfsPath: Option<string>,
                  logLevel: Option<string>, name: string, lxcpath: string,
                  callerArgv: seq<Option<string>>, argc: nat) returns (i: nat)
    requires argc <= |callerArgv|
    requires argv.Length == argc + ArgcAdd(quiet, rootfsPath, logLevel)
    modifies argv
    ensures i == argv.Length - 1
    ensures argv[..i] == HelperArgv(initPath, quiet, rootfsPath, logLevel, name, lxcpath, callerArgv[..argc])
  {
    i := PutHelperHead(argv, initPath, quiet, rootfsPath, logLevel, name, lxcpath);
    ghost var head := argv[..i];
    // the caller's vector, its NULL included
    var j := 0;
    while j < argc
      invariant 0 <= j <= argc
      invariant i == |head| + j
      invariant argv[..i] == head + callerArgv[..j]
    {
      argv[i] := callerArgv[j];
      i, j := i + 1, j + 1;
      assert callerArgv[..j] == callerArgv[..j - 1] + [callerArgv[j - 1]];
    }
    argv[i] := None;
    i := i + 1;
  }

  /** The first writes of execute_start: the helper path, the options and
      `--`, through the index `i`, from the start of the allocation. */
  method PutHelperHead(argv: array<Option<string>>, initPath: string, quiet: bool, rootfsPath: Option<string>,
                       logLevel: Option<string>, name: string, lxcpath: string) returns (i: nat)
    requires ArgcAdd(quiet, rootfsPath, logLevel) <= argv.Length
    modifies argv
    ensures i + 2 == ArgcAdd(quiet, rootfsPath, logLevel)
    ensures argv[..i] == Lift([initPath] + HelperOptions(quiet, rootfsPath, logLevel, name, lxcpath) + ["--"])
  {
    ghost var head: seq<Option<string>> := [];
    i := 0;
    argv[i] := Some(initPath);
    i, head := i + 1, head + [Some(initPath)];
    if quiet {
      argv[i] := Some("--quiet");
      i, head := i + 1, head + [Some("--quiet")];
    }
    if rootfsPath.None? {
      argv[i] := Some("--name");
      argv[i + 1] := Some(name);
      argv[i + 2] := Some("--lxcpath");
      argv[i + 3] := Some(lxcpath);
      i, head := i + 4, head + [Some("--name"), Some(name), Some("--lxcpath"), Some(lxcpath)];
      if logLevel.Some? {
        argv[i] := Some("--logpriority");
        argv[i + 1] := Some(logLevel.value);
        i, head := i + 2, head + [Some("--logpriority"), Some(logLevel.value)];
      }
    }
    argv[i] := Some("--");
    i, head := i + 1, head + [Some("--")];
    assert argv[..i] == head;
  }

  // ---------------------------------------------------------------------
  // What the vector means

  /** The identity a helper vector carries. */
  datatype Identity = Identity(name: string, lxcpath: string)

  /** A helper invocation as read back from the strings of its vector. */
  datatype Invocation = Invocation(program: string, quiet: bool, identity: Option<Identity>,
                                   logPriority: Option<string>, command: seq<string>)

  /** Takes the flag `--quiet` off the front of `r`, if it is there. */
  function TakeQuiet(r: seq<string>): (bool, seq<string>)
  {
    if r != [] && r[0] == "--quiet" then (true, r[1..]) else (false, r)
  }

  /** Takes `--name N --lxcpath P` off the front of `r`, if it is there. */
  function TakeIdentity(r: seq<string>): (Option<Identity>, seq<string>)
  {
    if |r| >= 4 && r[0] == "--name" && r[2] == "--lxcpath" then (Some(Identity(r[1], r[3])), r[4..])
    else (None, r)
  }

  /** Takes `--logpriority L` off the front of `r`, if it is there. */
  function TakePriority(r: seq<string>): (Option<string>, seq<string>)
  {
    if |r| >= 2 && r[0] == "--logpriority" then (Some(r[1]), r[2..]) else (None, r)
  }

  /** An independent reading of a helper vector: the program, then
      `--quiet`, `--name N --lxcpath P` and `--logpriority L`, each taken
      only at its place, then `--` and the command after it. `None` when
      the vector has no `--` where one is due. */
  function ReadBack(v: seq<string>): Option<Invocation>
  {
    if v == [] then None
    else
      var (quiet, r1) := TakeQuiet(v[1..]);
      var (identity, r2) := TakeIdentity(r1);
      var (priority, r3) := TakePriority(r2);
      if r3 != [] && r3[0] == "--" then Some(Invocation(v[0], quiet, identity, priority, r3[1..]))
      else None
  }

  /** An exec reads the lifted strings and then whatever follows them. */
  lemma {:induction false} LogicalArgvOfLift(s: seq<string>, t: seq<Option<string>>)
    ensures LogicalArgv(Lift(s) + t) == s + LogicalArgv(t)
    decreases |s|
  {
    if s == [] {
      assert Lift(s) + t == t;
    } else {
      var u := Lift(s) + t;
      assert u[0] == Some(s[0]);
      assert u[1..] == Lift(s[1..]) + t;
      LogicalArgvOfLift(s[1..], t);
      assert s == [s[0]] + s[1..];
    }
  }

  /** The counted part of a terminated vector is its strings and the NULL. */
  lemma {:induction false} CountedIsCommandAndNull(v: seq<Option<string>>)
    requires NullTerminated(v)
    ensures v[..FirstNull(v) + 1] == Lift(LogicalArgv(v)) + [None]
    decreases |v|
  {
    if v[0] != None {
      var t := v[1..];
      CountedIsCommandAndNull(t);
      assert FirstNull(v) == 1 + FirstNull(t);
      assert v[..FirstNull(v) + 1] == [v[0]] + t[..FirstNull(t) + 1];
      assert LogicalArgv(v) == [v[0].value] + LogicalArgv(t);
      assert Lift(LogicalArgv(v)) == [v[0]] + Lift(LogicalArgv(t));
    }
  }

  /** The `--quiet` step of the reader undoes the `--quiet` flag. */
  lemma TakeQuietFlag(quiet: bool, rest: seq<string>)
    requires rest != [] && (rest[0] == "--name" || rest[0] == "--logpriority" || rest[0] == "--")
    ensures TakeQuiet((if quiet then ["--quiet"] else []) + rest) == (quiet, rest)
  {
    if quiet {
      assert (["--quiet"] + rest)[1..] == rest;
    } else {
      assert [] + rest == rest;
      assert |"--quiet"| !in {|"--name"|, |"--logpriority"|, |"--"|};
    }
  }

  /** The identity step of the reader undoes `--name N --lxcpath P`. */
  lemma TakeIdentityFlags(identity: Option<Identity>, rest: seq<string>)
    requires rest != [] && (rest[0] == "--logpriority" || rest[0] == "--")
    ensures TakeIdentity((if identity.Some? then ["--name", identity.value.name, "--lxcpath", identity.value.lxcpath] else [])
                         + rest) == (identity, rest)
  {
    if identity.Some? {
      var r := ["--name", identity.value.name, "--lxcpath", identity.value.lxcpath] + rest;
      assert r[0] == "--name" && r[2] == "--lxcpath" && r[4..] == rest;
    } else {
      assert [] + rest == rest;
      assert |"--name"| !in {|"--logpriority"|, |"--"|};
    }
  }

  /** The priority step of the reader undoes `--logpriority L`. */
  lemma TakePriorityFlags(priority: Option<string>, rest: seq<string>)
    requires rest != [] && rest[0] == "--"
    ensures TakePriority((if priority.Some? then ["--logpriority", priority.value] else []) + rest) == (priority, rest)
  {
    if priority.Some? {
      var r := ["--logpriority", priority.value] + rest;
      assert r[0] == "--logpriority" && r[2..] == rest;
    } else {
      assert [] + rest == rest;
      assert |"--"| != |"--logpriority"|;
    }
  }

  /** Reading back a helper vector recovers exactly the configuration that
      built it: the quiet flag, the identity only without a rootfs path,
      the log priority only without a rootfs path and with a valid level,
      and the caller's command. */
  lemma ReadBackHelperStrings(initPath: string, quiet: bool, rootfsPath: Option<string>, logLevel: Option<string>,
                              name: string, lxcpath: string, command: seq<string>)
    ensures ReadBack([initPath] + HelperOptions(quiet, rootfsPath, logLevel, name, lxcpath) + ["--"] + command)
         == Some(Invocation(initPath, quiet,
                            if rootfsPath.None? then Some(Identity(name, lxcpath)) else None,
                            if rootfsPath.None? then logLevel else None,
                            command))
  {
    // Dafny may find this unaided; the steps below keep it within bounds on every solver seed
    var priority := if rootfsPath.None? then logLevel else None;
    var identity := if rootfsPath.None? then Some(Identity(name, lxcpath)) else None;
    var level := if priority.Some? then ["--logpriority", priority.value] else [];
    var ident := if identity.Some? then ["--name", identity.value.name, "--lxcpath", identity.value.lxcpath] else [];
    var q := if quiet then ["--quiet"] else [];
    var r3 := ["--"] + command;
    var r2 := level + r3;
    var r1 := ident + r2;
    assert HelperOptions(quiet, rootfsPath, logLevel, name, lxcpath) == q + ident + level;
    var v := [initPath] + HelperOptions(quiet, rootfsPath, logLevel, name, lxcpath) + ["--"] + command;
    assert v[1..] == q + r1;
    TakePriorityFlags(priority, r3);
    TakeIdentityFlags(identity, r2);
    TakeQuietFlag(quiet, r1);
  }

  /** The vector execute_start hands to execvp, read as execvp reads it (up to
      its first NULL), is the helper invocation of the caller's command
      under exactly the flags the configuration calls for. */
  lemma HelperArgvReadsBack(initPath: string, quiet: bool, rootfsPath: Option<string>, logLevel: Option<string>,
                            name: string, lxcpath: string, callerArgv: seq<Option<string>>)
    requires NullTerminated(callerArgv)
    ensures var v := HelperArgv(initPath, quiet, rootfsPath, logLevel, name, lxcpath,
                                callerArgv[..FirstNull(callerArgv) + 1]);
      ReadBack(LogicalArgv(v))
        == Some(Invocation(initPath, quiet,
                           if rootfsPath.None? then Some(Identity(name, lxcpath)) else None,
                           if rootfsPath.None? then logLevel else None,
                           LogicalArgv(callerArgv)))
    ensures var v := HelperArgv(initPath, quiet, rootfsPath, logLevel, name, lxcpath,
                                callerArgv[..FirstNull(callerArgv) + 1]);
      var l, cmd := LogicalArgv(v), LogicalArgv(callerArgv);
      |l| >= |cmd| + 2 && l[0] == initPath && l[|l| - |cmd| - 1] == "--" && l[|l| - |cmd|..] == cmd
  {
    var head := [initPath] + HelperOptions(quiet, rootfsPath, logLevel, name, lxcpath) + ["--"];
    var cmd := LogicalArgv(callerArgv);
    CountedIsCommandAndNull(callerArgv);
    var v := HelperArgv(initPath, quiet, rootfsPath, logLevel, name, lxcpath, callerArgv[..FirstNull(callerArgv) + 1]);
    assert v == Lift(head + cmd) + ([None] + [None]) by {
      assert Lift(head + cmd) == Lift(head) + Lift(cmd);
    }
    LogicalArgvOfLift(head + cmd, [None] + [None]);
    assert LogicalArgv([None] + [None]) == [];
    assert LogicalArgv(v) == head + cmd;
    ReadBackHelperStrings(initPath, quiet, rootfsPath, logLevel, name, lxcpath, cmd);
  }

  /** The caller's vector, its NULL included, is the tail of the helper
      vector up to the extra NULL, right after the `--` separator. */
  lemma CallerVectorIsSuffix(initPath: string, quiet: bool, rootfsPath: Option<string>, logLevel: Option<string>,
                             name: string, lxcpath: string, counted: seq<Option<string>>)
    ensures var v := HelperArgv(initPath, quiet, rootfsPath, logLevel, name, lxcpath, counted);
      var n := |v| - |counted| - 1;
      n >= 2 && v[0] == Some(initPath) && v[n - 1] == Some("--") &&
      v[n..|v| - 1] == counted && v[|v| - 1] == None
  {
    // Dafny may find this unaided; the assertion keeps it stable across solver seeds
    var head := Lift([initPath] + HelperOptions(quiet, rootfsPath, logLevel, name, lxcpath) + ["--"]);
    var v := HelperArgv(initPath, quiet, rootfsPath, logLevel, name, lxcpath, counted);
    assert v[|head|..|v| - 1] == counted;
  }
}
