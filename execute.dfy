/** The execute strategy's remaining entry points in src/lxc/execute.c: the
    `post_start` hook and the public `lxc_execute`, which marks the
    configuration and hands the start over to the generic start sequence. */
module Execute {
  import opened Wrappers
  import StartHook

  /** The part of `struct lxc_conf` this file touches. */
  class Conf {
    var isExecute: int

    constructor ()
      ensures isExecute == 0
    {
      isExecute := 0;
    }
  }

  /** The call `__lxc_start(name, conf, &execute_start_ops, &args, lxcpath)`,
      with the value `conf->is_execute` has when it is made. */
  datatype StartRequest = StartRequest(name: string, args: StartHook.ExecuteArgs, lxcpath: string, isExecute: int)

  /** `execute_post_start`: it only logs the container's pid, and reports
      success. */
  method ExecutePostStart(handler: StartHook.Handler, args: StartHook.ExecuteArgs) returns (status: int)
    ensures status == 0
  {
    status := 0;
  }

  /** `lxc_execute`. `inheritedCheck` is what `lxc_check_inherited(conf, -1)`
      returns (non-zero on failure) and `startResult` what `__lxc_start`
      returns; `request` is the call made to `__lxc_start`, `None` when it
      is not made. */
  method LxcExecute(name: string, argv: seq<Option<string>>, quiet: bool, conf: Conf, lxcpath: string,
                    inheritedCheck: int, startResult: int)
    returns (status: int, request: Option<StartRequest>)
    modifies conf`isExecute
    ensures inheritedCheck != 0 ==>
      status == -1 && request == None && conf.isExecute == old(conf.isExecute)
    ensures inheritedCheck == 0 ==>
      conf.isExecute == 1 && status == startResult &&
      request == Some(StartRequest(name, StartHook.ExecuteArgs(argv, quiet), lxcpath, 1))
  {
    var args := StartHook.ExecuteArgs(argv, quiet);
    if inheritedCheck != 0 {
      return -1, None;
    }
    conf.isExecute := 1;
    request := Some(StartRequest(name, args, lxcpath, conf.isExecute));
    status := startResult;
  }
}
