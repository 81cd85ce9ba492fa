/** The init-helper path resolver (`choose_init` in src/lxc/execute.c).
    It composes three candidate paths, one after the other, into a single
    buffer of PATH_MAX bytes and returns the first one that `stat` accepts.
    A composition that does not fit the buffer aborts the whole search. */
module InitResolver {
  import opened Wrappers

  /** The host the resolver runs on: the install-time directory LXCINITDIR,
      the platform's PATH_MAX, and the `stat` probe (true when `stat`
      succeeds on the path). */
  datatype Env = Env(initDir: string, pathMax: nat, stat: string -> bool)

  /** The three candidates, in the order they are tried. */
  function Candidates(initDir: string): seq<string>
  {
    [initDir + "/lxc/lxc-init", "/usr/lib/lxc/lxc-init", "/sbin/lxc-init"]
  }

  /** The number of bytes one character takes in UTF-8, the encoding of the
      path bytes the C code counts. */
  function Utf8Width(ch: char): (n: nat)
    ensures 1 <= n <= 4
    ensures n == 1 <==> ch as int < 0x80
  {
    if ch as int < 0x80 then 1
    else if ch as int < 0x800 then 2
    else if ch as int < 0x10000 then 3
    else 4
  }

  /** The length in bytes of a path, which is what `snprintf` returns for a
      format without directives. */
  function ByteLength(s: string): (n: nat)
    ensures |s| <= n <= 4 * |s|
    decreases |s|
  {
    if s == [] then 0 else Utf8Width(s[0]) + ByteLength(s[1..])
  }

  /** A path of ASCII characters has one byte per character. */
  lemma {:induction false} AsciiByteLength(s: string)
    requires forall i :: 0 <= i < |s| ==> s[i] as int < 0x80
    ensures ByteLength(s) == |s|
    decreases |s|
  {
    if s != [] {
      AsciiByteLength(s[1..]);
    }
  }

  /** A composed path is usable only when its bytes and the terminating NUL
      fit a buffer of `room` bytes, i.e. when the byte count `snprintf`
      returns is below `room` (see `FitsIffShorter`). */
  predicate Fits(path: string, room: nat)
  {
    FitsFrom(path, 0, room)
  }

  /** The bytes of `path` from index `i` on, and the NUL, fit in `room`. */
  predicate FitsFrom(path: string, i: nat, room: nat)
    requires i <= |path|
    decreases |path| - i
  {
    if i == |path| then room > 0
    else Utf8Width(path[i]) <= room && FitsFrom(path, i + 1, room - Utf8Width(path[i]))
  }

  lemma {:induction false} FitsFromIffShorter(path: string, i: nat, room: nat)
    requires i <= |path|
    ensures FitsFrom(path, i, room) <==> ByteLength(path[i..]) < room
    decreases |path| - i
  {
    if i < |path| {
      assert path[i..][0] == path[i] && path[i..][1..] == path[i + 1..];
      if Utf8Width(path[i]) <= room {
        FitsFromIffShorter(path, i + 1, room - Utf8Width(path[i]));
      }
    }
  }

  /** `Fits` is the check `snprintf(...) < PATH_MAX` on the byte count. */
  lemma FitsIffShorter(path: string, room: nat)
    ensures Fits(path, room) <==> ByteLength(path) < room
  {
    FitsFromIffShorter(path, 0, room);
    assert path[0..] == path;
  }

  /** Reference semantics of the search over a list of candidates: the
      answer found, walking the list in order. */
  function FirstExisting(c: seq<string>, pathMax: nat, stat: string -> bool): Option<string>
    decreases |c|
  {
    if c == [] then None
    else if !Fits(c[0], pathMax) then None
    else if stat(c[0]) then Some(c[0])
    else FirstExisting(c[1..], pathMax, stat)
  }

  /** The paths handed to `stat`, in order, by the same walk. */
  function Probed(c: seq<string>, pathMax: nat, stat: string -> bool): seq<string>
    decreases |c|
  {
    if c == [] then []
    else if !Fits(c[0], pathMax) then []
    else if stat(c[0]) then [c[0]]
    else [c[0]] + Probed(c[1..], pathMax, stat)
  }

  /** What `choose_init` returns; `bufAllocated` is the outcome of its
      `malloc(PATH_MAX)`. */
  function Resolve(env: Env, bufAllocated: bool): Option<string>
  {
    if bufAllocated then FirstExisting(Candidates(env.initDir), env.pathMax, env.stat)
    else None
  }

  /** The `stat` calls `choose_init` makes. */
  function ResolveProbes(env: Env, bufAllocated: bool): seq<string>
  {
    if bufAllocated then Probed(Candidates(env.initDir), env.pathMax, env.stat)
    else []
  }

  /** `choose_init`: one buffer `retv`, overwritten for each candidate, with an
      early return on success and an abort on a composition that does not
      fit. `probes` records every path passed to `stat`. */
  method ChooseInit(env: Env, bufAllocated: bool) returns (path: Option<string>, probes: seq<string>)
    ensures path == Resolve(env, bufAllocated)
    ensures probes == ResolveProbes(env, bufAllocated)
  {
    probes := [];
    if !bufAllocated {
      return None, probes;
    }
    // `todo` is what the reference walk still has to try
    ghost var todo := Candidates(env.initDir);
    var stop;
    stop, path, probes := ComposeAndProbe(env.initDir + "/lxc/lxc-init", env, todo, probes);
    if stop {
      return;
    }
    todo := todo[1..];
    stop, path, probes := ComposeAndProbe("/usr/lib/lxc/lxc-init", env, todo, probes);
    if stop {
      return;
    }
    todo := todo[1..];
    stop, path, probes := ComposeAndProbe("/sbin/lxc-init", env, todo, probes);
    if stop {
      return;
    }
    assert todo[1..] == [];
    return None, probes;
  }

  /** One block of `choose_init`: compose `retv` into the buffer and give up
      when it does not fit; otherwise `stat` it and stop on success. `todo`
      is the rest of the reference walk, whose next candidate `retv` is. */
  method ComposeAndProbe(retv: string, env: Env, ghost todo: seq<string>, probes: seq<string>)
    returns (stop: bool, path: Option<string>, probes': seq<string>)
    requires todo != [] && retv == todo[0]
    ensures stop ==>
      path == FirstExisting(todo, env.pathMax, env.stat) &&
      probes' == probes + Probed(todo, env.pathMax, env.stat)
    ensures !stop ==>
      path == None && probes' == probes + [retv] &&
      FirstExisting(todo, env.pathMax, env.stat) == FirstExisting(todo[1..], env.pathMax, env.stat) &&
      probes + Probed(todo, env.pathMax, env.stat) == probes' + Probed(todo[1..], env.pathMax, env.stat)
  {
    if !Fits(retv, env.pathMax) {
      return true, None, probes;
    }
    probes' := probes + [retv];
    if env.stat(retv) {
      return true, Some(retv), probes';
    }
    return false, None, probes';
  }

  /** The first `k` candidates were composed, fitted, and `stat` refused each. */
  ghost predicate Passed(c: seq<string>, pathMax: nat, stat: string -> bool, k: nat)
    requires k <= |c|
  {
    forall j :: 0 <= j < k ==> Fits(c[j], pathMax) && !stat(c[j])
  }

  /** A candidate that is returned was reached by the walk and accepted. */
  lemma {:induction false} FoundHasWitness(c: seq<string>, pathMax: nat, stat: string -> bool, p: string) returns (k: nat)
    requires FirstExisting(c, pathMax, stat) == Some(p)
    ensures k < |c| && Passed(c, pathMax, stat, k) && Fits(c[k], pathMax) && stat(c[k]) && c[k] == p
    decreases |c|
  {
    if stat(c[0]) {
      k := 0;
    } else {
      var t := c[1..];
      var k' := FoundHasWitness(t, pathMax, stat, p);
      k := k' + 1;
      forall j | 0 <= j < k ensures Fits(c[j], pathMax) && !stat(c[j]) {
        if j > 0 { assert c[j] == t[j - 1]; }
      }
      assert c[k] == t[k'];
    }
  }

  /** A candidate reached by the walk and accepted is the one returned. */
  lemma {:induction false} WitnessIsFound(c: seq<string>, pathMax: nat, stat: string -> bool, k: nat)
    requires k < |c| && Passed(c, pathMax, stat, k) && Fits(c[k], pathMax) && stat(c[k])
    ensures FirstExisting(c, pathMax, stat) == Some(c[k])
    decreases k
  {
    if k > 0 {
      var t := c[1..];
      assert Fits(c[0], pathMax) && !stat(c[0]);
      forall j | 0 <= j < k - 1 ensures Fits(t[j], pathMax) && !stat(t[j]) {
        assert t[j] == c[j + 1];
      }
      assert t[k - 1] == c[k];
      WitnessIsFound(t, pathMax, stat, k - 1);
    }
  }

  /** The search returns `p` exactly when `p` is the first candidate `stat`
      accepts and every candidate up to and including it fitted the buffer. */
  lemma FoundIsFirstExisting(c: seq<string>, pathMax: nat, stat: string -> bool, p: string)
    ensures FirstExisting(c, pathMax, stat) == Some(p) <==>
      exists k :: 0 <= k < |c| && Passed(c, pathMax, stat, k) && Fits(c[k], pathMax) && stat(c[k]) && c[k] == p
  {
    // Dafny may combine the two lemmas unaided; the calls keep it stable across solver seeds
    if FirstExisting(c, pathMax, stat) == Some(p) {
      var k := FoundHasWitness(c, pathMax, stat, p);
    }
    if exists k :: 0 <= k < |c| && Passed(c, pathMax, stat, k) && Fits(c[k], pathMax) && stat(c[k]) && c[k] == p {
      var k :| 0 <= k < |c| && Passed(c, pathMax, stat, k) && Fits(c[k], pathMax) && stat(c[k]) && c[k] == p;
      WitnessIsFound(c, pathMax, stat, k);
    }
  }

  /** When every candidate fits, the search fails exactly when `stat`
      accepts none of them. */
  lemma {:induction false} NotFoundIffNoneExists(c: seq<string>, pathMax: nat, stat: string -> bool)
    requires forall j :: 0 <= j < |c| ==> Fits(c[j], pathMax)
    ensures FirstExisting(c, pathMax, stat) == None <==> forall j :: 0 <= j < |c| ==> !stat(c[j])
    decreases |c|
  {
    if c != [] {
      var t := c[1..];
      assert forall j :: 0 <= j < |t| ==> t[j] == c[j + 1];
      NotFoundIffNoneExists(t, pathMax, stat);
      if !stat(c[0]) && forall j :: 0 <= j < |t| ==> !stat(t[j]) {
        forall j | 0 <= j < |c| ensures !stat(c[j]) {
          if j > 0 { assert c[j] == t[j - 1]; }
        }
      }
    }
  }

  /** Once the walk reaches a candidate that does not fit, the search fails
      at once: no later candidate is composed or probed. */
  lemma {:induction false} TooLongAborts(c: seq<string>, pathMax: nat, stat: string -> bool, k: nat)
    requires k < |c| && Passed(c, pathMax, stat, k) && !Fits(c[k], pathMax)
    ensures FirstExisting(c, pathMax, stat) == None
    ensures Probed(c, pathMax, stat) == c[..k]
    decreases k
  {
    if k > 0 {
      var t := c[1..];
      assert Passed(t, pathMax, stat, k - 1) by {
        forall j | 0 <= j < k - 1 ensures Fits(t[j], pathMax) && !stat(t[j]) {
          assert t[j] == c[j + 1];
        }
      }
      assert Fits(c[0], pathMax) && !stat(c[0]);
      TooLongAborts(t, pathMax, stat, k - 1);
      assert c[..k] == [c[0]] + t[..k - 1];
    }
  }

  /** The probes are always the candidates in order, a prefix of the list,
      and a successful search returns the last path probed. */
  lemma {:induction false} ProbesArePrefix(c: seq<string>, pathMax: nat, stat: string -> bool)
    ensures var p := Probed(c, pathMax, stat);
      |p| <= |c| && p == c[..|p|] &&
      (FirstExisting(c, pathMax, stat).Some? ==> p != [] && FirstExisting(c, pathMax, stat) == Some(p[|p| - 1]))
    decreases |c|
  {
    if c != [] && Fits(c[0], pathMax) && !stat(c[0]) {
      ProbesArePrefix(c[1..], pathMax, stat);
      var p := Probed(c[1..], pathMax, stat);
      assert c[..1 + |p|] == [c[0]] + c[1..][..|p|];
    }
  }
}
