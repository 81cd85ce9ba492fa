# LXC execute strategy: a verified model

This project models `src/lxc/execute.c` of LXC. That file holds the launcher used by
`lxc-execute`. It resolves the path of the `lxc-init` helper, builds the helper's argument
vector, wraps the caller's command in it, and execs it. It also provides the `post_start`
hook and the public `lxc_execute` entry point, which marks the configuration as an execute
start and hands over to the generic start sequence.

Files:

- `wrappers.dfy`: module `Wrappers`. `Option` stands for a nullable C pointer.
- `init_resolver.dfy`: module `InitResolver`, for `choose_init`. A reference search over a
  candidate list (`FirstExisting`, `Probed`), the imperative `ChooseInit` proved equal to it,
  and lemmas on what the search returns and what it probes.
- `start_hook.dfy`: module `StartHook`, for `execute_start`. The count loop, the capacity, the
  fill of a heap `array` through a running index, and the exec outcome. The intended vector is
  `HelperArgv`. `ReadBack` is an independent reader of a helper vector. The lemmas prove the
  round trip and the suffix property.
- `execute.dfy`: module `Execute`, for `execute_post_start` and `lxc_execute`. The fields of
  `struct lxc_conf` that are used are a class, `Conf`.

Environment inputs are parameters:

- `LXCINITDIR`, `PATH_MAX` and `stat` are the fields of `InitResolver.Env`. `stat` is a
  predicate on paths.
- The outcomes of `malloc` and `execvp` are boolean parameters.
- The two logging queries are one `logLevel: Option<string>`. It holds the priority's name when
  a valid level is configured.
- The results of `lxc_check_inherited` and `__lxc_start` are integer parameters.

The model follows the code in three places where a reader might expect otherwise:

- A candidate path that does not fit `PATH_MAX` aborts the whole search with `NULL`. It is not
  skipped (src/lxc/execute.c:56-58, 66-68, 74-76). `InitResolver.TooLongAborts` proves this.
- The helper path is always resolved and placed first, even when `rootfs.path` is set. Only
  the identity and log flags depend on it (src/lxc/execute.c:109-128). No "direct mode" exists
  in which the caller's command comes first.
- The count `argc` includes the caller's NULL terminator. The copy loop copies that NULL too,
  and one more NULL is written after it. So the allocation of `argc + argc_add` slots is filled
  to exactly one slot short (src/lxc/execute.c:94, 105, 129-132).

## Model

| member | source | states |
|---|---|---|
| InitResolver.ChooseInit | src/lxc/execute.c:47-84 | the path returned is `NULL` when the buffer allocation fails. Otherwise it is the reference search over the three candidates in their fixed order. The paths passed to `stat` are exactly those of that search |
| InitResolver.ComposeAndProbe | src/lxc/execute.c:55-63 | one candidate block: a path that does not fit stops the search with `NULL` and no probe. Otherwise the path is probed, and the search stops with it when `stat` accepts it. Each outcome advances the reference walk by exactly one candidate |
| InitResolver.FoundHasWitness | src/lxc/execute.c:55-80 | a returned path is a candidate that fitted. Every earlier candidate fitted and was refused by `stat`, and `stat` accepted this one |
| InitResolver.WitnessIsFound | src/lxc/execute.c:55-80 | the first candidate `stat` accepts, with it and every earlier candidate fitting, is the one returned |
| InitResolver.FoundIsFirstExisting | src/lxc/execute.c:55-80 | the search returns `p` if and only if `p` is the first candidate `stat` accepts and every candidate up to it fitted `PATH_MAX` |
| InitResolver.NotFoundIffNoneExists | src/lxc/execute.c:55-83 | when every candidate fits, the search returns `NULL` if and only if `stat` accepts none of them |
| InitResolver.TooLongAborts | src/lxc/execute.c:55-83 | once the walk reaches a candidate whose byte length is not below `PATH_MAX`, the result is `NULL`. The probes stop before it, so later candidates are never composed or probed |
| InitResolver.ByteLength | src/lxc/execute.c:55-56 | the UTF-8 byte count of a path is at least its character count and at most four times it |
| InitResolver.FitsIffShorter | src/lxc/execute.c:55-56 | a composed path fits exactly when its UTF-8 byte count, the value `snprintf` returns, is below `PATH_MAX` |
| InitResolver.AsciiByteLength | src/lxc/execute.c:55-56 | a path of ASCII characters has one byte per character, so for the two fixed candidates the byte count is the character count |
| InitResolver.ProbesArePrefix | src/lxc/execute.c:61-80 | the probed paths are a prefix of the candidate list, in order. On success the returned path is the last one probed |
| StartHook.FirstNull | src/lxc/execute.c:94 | the index of the first NULL of a terminated vector: it is in range, the entry there is NULL, and no entry before it is |
| StartHook.CountedIsCommandAndNull | src/lxc/execute.c:94 | the counted part of the caller's vector (`argc` entries) is its command strings followed by the NULL terminator |
| StartHook.ExecuteStart | src/lxc/execute.c:86-143 | capacity is the caller's count (NULL included) plus `argc_add`. `execvp` is called if and only if both allocation and resolution succeed, and then with exactly `HelperArgv`, which is capacity − 1 entries. The hook returns 1 whenever it returns and does not return when the exec succeeds |
| StartHook.FillArgv | src/lxc/execute.c:114-132 | into an allocation of `argc + argc_add` slots, every write is in bounds. The written prefix is the helper vector, ending one slot short of the allocation |
| StartHook.PutHelperHead | src/lxc/execute.c:114-129 | the first `argc_add − 2` slots hold, in order, the helper path, the optional `--quiet`, the optional `--name N --lxcpath P` and `--logpriority L`, and `--` |
| StartHook.ReadBackHelperStrings | src/lxc/execute.c:114-129 | reading the strings back recovers the exact configuration. `--quiet` is present iff quiet. The identity is present iff `rootfs.path` is NULL. The log priority is present iff `rootfs.path` is NULL and a valid level is set. The command after `--` is the caller's |
| StartHook.HelperArgvReadsBack | src/lxc/execute.c:114-136 | the vector given to `execvp`, read up to its first NULL, reads back as that configuration applied to the caller's command. It starts with the helper path and ends with `--` followed by exactly the caller's command |
| StartHook.CallerVectorIsSuffix | src/lxc/execute.c:129-132 | the helper path is first. The caller's counted vector, its NULL included, comes unchanged right after `--`. One extra NULL ends the vector |
| Execute.ExecutePostStart | src/lxc/execute.c:145-150 | always returns 0 |
| Execute.LxcExecute | src/lxc/execute.c:157-170 | a failing inherited-fd check returns -1 with no call to the start sequence and `is_execute` unchanged. Otherwise `is_execute` is 1 when the start sequence is called with the name, the `{argv, quiet}` arguments and the lxcpath, and its result is returned |

## Left out

- Logging (`ERROR`, `NOTICE`, `SYSERROR`, the log channel): it has no effect on results. The `NOTICE` of `execute_start` reads `argv[0]` of the caller's vector, and that read is not modelled.
- `stat`, `malloc`, `free`, `execvp`: operating-system calls. `stat` is a predicate on paths. Each allocation outcome is a parameter. The exec outcome is a parameter: success means no return. Memory ownership and the frees are not modelled.
- The internals of `lxc_log_has_valid_level` and `lxc_log_priority_to_string`: foreign calls. Their results are one `Option<string>`, taken to give the same answer at both queries.
- `lxc_check_inherited` and `__lxc_start`: external collaborators. Their results are parameters.
- `Execute.LxcExecute`: the effects of `__lxc_start` on `conf` are not modelled. The model takes it to leave the configuration alone, so `is_execute` being 1 after the call holds only under that assumption. The source guarantees only that `is_execute` is 1 when the start sequence is called.
- The `execute_start_ops` table: it only binds `start` to `ExecuteStart` and `post_start` to `ExecutePostStart`, and no other wiring is modelled.
- The parent/child process split between the `start` and `post_start` hooks: process-level concurrency, outside this sequential model.
- `InitResolver.ChooseInit`: `snprintf` is modelled as plain concatenation. Its return value is the byte length of the composed path, with paths taken as Unicode scalar values encoded in UTF-8. A negative return is not modelled. A `%` in `LXCINITDIR` would be read as a format directive, and this is not modelled.
- `StartHook.ExecuteStart`: `argc`, `argc + argc_add` and the allocation size are unbounded integers. A C `int` overflow or `size_t` wrap-around for huge vectors is not modelled. The last, never-written slot of the allocation is left out of the reported vector.
- The rest of `struct lxc_conf` and `struct lxc_handler`: only the fields this file reads or writes are modelled.
