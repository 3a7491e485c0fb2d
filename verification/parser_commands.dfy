/** The argument handling of the `icegridadmin` command handlers
    (`IceGrid::Parser`): the argument-count checks every handler makes
    before talking to the registry, and the splitting of the trailing
    arguments of the application and template commands into `NAME=VALUE`
    variables and plain targets. The registry calls themselves are
    represented by the request a handler would send. */
module ParserCommands {
  import opened Wrappers
  import Text

  // ---------------------------------------------------------------------
  // NAME=VALUE arguments

  /** The variable an argument assigns: the text before its first '=' and
      the text after it. None for an argument without '='. */
  function Assignment(arg: string): (r: Option<(string, string)>)
    ensures r.None? <==> '=' !in arg
    ensures r.Some? ==> arg == r.value.0 + "=" + r.value.1 && '=' !in r.value.0
  {
    match Text.FindFirstOf(arg, "=", 0)
    case None => None
    case Some(pos) =>
      assert arg == arg[..pos] + "=" + arg[pos + 1..];
      assert '=' !in arg[..pos] by {
        forall j | 0 <= j < pos ensures arg[..pos][j] != '=' {
          assert arg[j] !in "=";
        }
      }
      Some((arg[..pos], arg[pos + 1..]))
  }

  /** A name without '=' followed by "=value" is read back as that
      assignment. */
  lemma AssignmentRoundTrip(name: string, value: string)
    requires '=' !in name
    ensures Assignment(name + "=" + value) == Some((name, value))
  {
    var arg := name + "=" + value;
    assert forall j :: 0 <= j < |name| ==> arg[j] == name[j];
    assert arg[|name|] in "=";
    assert Text.FindFirstOf(arg, "=", 0) == Some(|name|);
    assert arg[..|name|] == name;
    assert arg[|name| + 1..] == value;
  }

  /** The loop that follows the descriptor argument: each argument with a
      '=' sets a variable (a later one for the same name wins), every other
      argument is appended to the targets. */
  function SplitArguments(args: seq<string>): (r: (map<string, string>, seq<string>))
    ensures |r.1| <= |args|
    decreases |args|
  {
    if args == [] then (map[], [])
    else Step(SplitArguments(args[..|args| - 1]), args[|args| - 1])
  }

  /** One iteration of that loop. */
  function Step(acc: (map<string, string>, seq<string>), arg: string): (r: (map<string, string>, seq<string>))
    ensures |r.1| <= |acc.1| + 1
  {
    match Assignment(arg)
    case Some((name, value)) => (acc.0[name := value], acc.1)
    case None => (acc.0, acc.1 + [arg])
  }

  lemma SplitArgumentsAppend(args: seq<string>, arg: string)
    ensures SplitArguments(args + [arg]) == Step(SplitArguments(args), arg)
  {
    assert (args + [arg])[..|args|] == args;
  }

  /** `arg` assigns the variable `name`. */
  predicate Assigns(arg: string, name: string) {
    Assignment(arg).Some? && Assignment(arg).value.0 == name
  }

  /** The arguments without '=' in their original order, defined from the
      front. */
  function PlainArguments(args: seq<string>): (r: seq<string>)
    ensures forall i :: 0 <= i < |r| ==> '=' !in r[i]
  {
    if args == [] then []
    else if '=' in args[0] then PlainArguments(args[1..])
    else [args[0]] + PlainArguments(args[1..])
  }

  lemma {:induction false} PlainArgumentsAppend(args: seq<string>, a: string)
    ensures PlainArguments(args + [a]) == PlainArguments(args) + (if '=' in a then [] else [a])
  {
    if args != [] {
      assert (args + [a])[1..] == args[1..] + [a];
      PlainArgumentsAppend(args[1..], a);
    } else {
      assert args + [a] == [a];
    }
  }

  /** The targets are exactly the arguments without '=', in order. */
  lemma {:induction false} TargetsArePlainArguments(args: seq<string>)
    ensures SplitArguments(args).1 == PlainArguments(args)
    decreases |args|
  {
    if args != [] {
      var init := args[..|args| - 1];
      var last := args[|args| - 1];
      TargetsArePlainArguments(init);
      assert args == init + [last];
      PlainArgumentsAppend(init, last);
    }
  }

  /** A variable is set exactly when some argument assigns it. */
  lemma {:induction false} AssignedVariables(args: seq<string>, name: string)
    ensures name in SplitArguments(args).0 <==> exists i :: 0 <= i < |args| && Assigns(args[i], name)
    decreases |args|
  {
    if args != [] {
      var n := |args| - 1;
      var init := args[..n];
      var last := args[n];
      assert args == init + [last];
      SplitArgumentsAppend(init, last);
      StepOnVariable(SplitArguments(init), last, name);
      AssignedVariables(init, name);
      if exists i :: 0 <= i < |args| && Assigns(args[i], name) {
        var i :| 0 <= i < |args| && Assigns(args[i], name);
        if i < n {
          assert Assigns(init[i], name);
        }
      } else {
        forall i | 0 <= i < |init| ensures !Assigns(init[i], name) {
          assert init[i] == args[i];
        }
      }
    }
  }

  /** `args[i]` sets `name` to `value` and no later argument sets `name`. */
  predicate LastAssigner(args: seq<string>, name: string, value: string, i: int) {
    && 0 <= i < |args|
    && Assignment(args[i]) == Some((name, value))
    && forall j :: i < j < |args| ==> !Assigns(args[j], name)
  }

  /** A variable's value is the one given by the last argument assigning
      it. */
  lemma {:induction false} LastAssignmentWins(args: seq<string>, name: string)
    requires name in SplitArguments(args).0
    ensures exists i :: LastAssigner(args, name, SplitArguments(args).0[name], i)
    decreases |args|
  {
    var n := |args| - 1;
    var init := args[..n];
    var last := args[n];
    assert args == init + [last];
    SplitArgumentsAppend(init, last);
    StepOnVariable(SplitArguments(init), last, name);
    var value := SplitArguments(args).0[name];
    if Assigns(last, name) {
      assert LastAssigner(args, name, value, n);
    } else {
      LastAssignmentWins(init, name);
      var i :| LastAssigner(init, name, value, i);
      assert forall j :: 0 <= j < n ==> args[j] == init[j];
      assert LastAssigner(args, name, value, i);
    }
  }

  /** What one iteration does to the variable `name`. */
  lemma StepOnVariable(acc: (map<string, string>, seq<string>), arg: string, name: string)
    ensures Assigns(arg, name) ==>
      name in Step(acc, arg).0 && Step(acc, arg).0[name] == Assignment(arg).value.1
    ensures !Assigns(arg, name) ==>
      (name in Step(acc, arg).0 <==> name in acc.0) && (name in acc.0 ==> Step(acc, arg).0[name] == acc.0[name])
  {
  }

  function RemoveAll(args: seq<string>, a: string): (r: seq<string>)
    ensures |r| <= |args|
  {
    if args == [] then []
    else if args[0] == a then RemoveAll(args[1..], a)
    else [args[0]] + RemoveAll(args[1..], a)
  }

  lemma {:induction false} RemoveAllAppend(args: seq<string>, b: string, a: string)
    ensures RemoveAll(args + [b], a) == RemoveAll(args, a) + (if b == a then [] else [b])
  {
    if args == [] {
      assert args + [b] == [b];
    } else {
      assert (args + [b])[1..] == args[1..] + [b];
      RemoveAllAppend(args[1..], b, a);
    }
  }

  /** Leaving out an argument without '=' does not change the variables. */
  lemma {:induction false} VariablesWithout(args: seq<string>, a: string)
    requires '=' !in a
    ensures SplitArguments(args).0 == SplitArguments(RemoveAll(args, a)).0
    decreases |args|
  {
    if args != [] {
      var n := |args| - 1;
      var init := args[..n];
      var last := args[n];
      assert args == init + [last];
      VariablesWithout(init, a);
      RemoveAllAppend(init, last, a);
      SplitArgumentsAppend(init, last);
      var rest := RemoveAll(init, a);
      if last != a {
        assert RemoveAll(args, a) == rest + [last];
        SplitArgumentsAppend(rest, last);
        StepVariablesOnly(SplitArguments(init), SplitArguments(rest), last);
      } else {
        assert RemoveAll(args, a) == rest;
        assert Assignment(last).None?;
      }
    }
  }

  /** The variables after a step depend only on the variables before it. */
  lemma StepVariablesOnly(acc: (map<string, string>, seq<string>), acc': (map<string, string>, seq<string>), arg: string)
    requires acc.0 == acc'.0
    ensures Step(acc, arg).0 == Step(acc', arg).0
  {
  }

  // ---------------------------------------------------------------------
  // Argument-count checks

  /** The handlers that check their argument count. */
  datatype Command =
    | ApplicationAdd | ApplicationRemove | ApplicationDescribe | ApplicationDiff
    | ApplicationUpdate | ApplicationPatch
    | ServerTemplateDescribe | ServerTemplateInstantiate | ServiceTemplateDescribe
    | NodeDescribe | NodePing | NodeLoad | NodeShutdown
    | RegistryDescribe | RegistryPing | RegistryShutdown
    | ServerRemove | ServerStart | ServerStop | ServerPatch | ServerSignal
    | ServerWriteMessage | ServerDescribe | ServerState | ServerPid
    | ServerEnable | ServerDisable
    | AdapterEndpoints | AdapterRemove
    | ObjectAdd | ObjectRemove | ObjectFind

  datatype Arity = Exactly(n: nat) | AtLeast(n: nat)

  function ArityOf(c: Command): (a: Arity)
    ensures 1 <= a.n <= 3
  {
    match c
    case ApplicationAdd => AtLeast(1)
    case ApplicationDescribe => AtLeast(1)
    case ApplicationDiff => AtLeast(1)
    case ApplicationUpdate => AtLeast(1)
    case ObjectAdd => AtLeast(1)
    case ServerTemplateInstantiate => AtLeast(3)
    case ServerTemplateDescribe => Exactly(2)
    case ServiceTemplateDescribe => Exactly(2)
    case ServerSignal => Exactly(2)
    case ServerWriteMessage => Exactly(2)
    case _ => Exactly(1)
  }

  function Accepts(a: Arity, count: nat): bool {
    match a
    case Exactly(n) => count == n
    case AtLeast(n) => count >= n
  }

  /** The command as the user types it. */
  function NameOf(c: Command): (name: string)
    ensures |name| >= 9 && ' ' in name
  {
    match c
    case ApplicationAdd => "application add"
    case ApplicationRemove => "application remove"
    case ApplicationDescribe => "application describe"
    case ApplicationDiff => "application diff"
    case ApplicationUpdate => "application update"
    case ApplicationPatch => "application patch"
    case ServerTemplateDescribe => "server template describe"
    case ServerTemplateInstantiate => "server template instantiate"
    case ServiceTemplateDescribe => "service template describe"
    case NodeDescribe => "node describe"
    case NodePing => "node ping"
    case NodeLoad => "node load"
    case NodeShutdown => "node shutdown"
    case RegistryDescribe => "registry describe"
    case RegistryPing => "registry ping"
    case RegistryShutdown => "registry shutdown"
    case ServerRemove => "server remove"
    case ServerStart => "server start"
    case ServerStop => "server stop"
    case ServerPatch => "server patch"
    case ServerSignal => "server signal"
    case ServerWriteMessage => "server stdout or server stderr"
    case ServerDescribe => "server describe"
    case ServerState => "server state"
    case ServerPid => "server pid"
    case ServerEnable => "server enable"
    case ServerDisable => "server disable"
    case AdapterEndpoints => "adapter endpoints"
    case AdapterRemove => "adapter remove"
    case ObjectAdd => "object add"
    case ObjectRemove => "object remove"
    case ObjectFind => "object find"
  }

  function CountWords(n: nat): string {
    if n == 1 then "one argument"
    else if n == 2 then "two arguments"
    else if n == 3 then "three arguments"
    else Text.IntToString(n) + " arguments"
  }

  /** "`<command>' requires exactly|at least <count>" for a command name. */
  function Requirement(name: string, a: Arity): (msg: string)
    ensures |msg| > |name| + 1 && msg[..|name| + 2] == "`" + name + "'"
  {
    var head := "`" + name + "'";
    assert |head| == |name| + 2;
    head + Demand(a)
  }

  /** " requires exactly|at least <count>". */
  function Demand(a: Arity): string {
    " requires " + (if a.Exactly? then "exactly " else "at least ") + CountWords(a.n)
  }

  /** The message each handler passes to `invalidCommand`, as written: two
      handlers name a different command than their own. */
  function GuardMessageAsWritten(c: Command): (msg: string)
    ensures c != ApplicationUpdate && c != ServerRemove ==> msg == GuardMessage(c)
  {
    match c
    case ApplicationUpdate => Requirement(NameOf(ApplicationDiff), AtLeast(1))
    case ServerRemove => Requirement(NameOf(ServerStart), Exactly(1))
    case _ => GuardMessage(c)
  }

  /** The message naming the command that was actually typed. */
  function GuardMessage(c: Command): (msg: string)
    ensures |msg| > |NameOf(c)| + 1 && msg[..|NameOf(c)| + 2] == "`" + NameOf(c) + "'"
  {
    Requirement(NameOf(c), ArityOf(c))
  }

  /** The written messages name their own command except for
      `application update` and `server remove`. */
  lemma GuardMessagesAsWrittenMisnamed(c: Command)
    ensures GuardMessageAsWritten(c) == GuardMessage(c) <==> c != ApplicationUpdate && c != ServerRemove
  {
    if c == ApplicationUpdate {
      UpdateMessageMisnamed();
    } else if c == ServerRemove {
      RemoveMessageMisnamed();
    }
  }

  lemma UpdateMessageMisnamed()
    ensures GuardMessageAsWritten(ApplicationUpdate) != GuardMessage(ApplicationUpdate)
  {
    var right := NameOf(ApplicationUpdate);
    var wrong := NameOf(ApplicationDiff);
    assert right[12] == 'u' && wrong[12] == 'd';
    MessagesDiffer(right, wrong, ArityOf(ApplicationUpdate), 12);
  }

  lemma RemoveMessageMisnamed()
    ensures GuardMessageAsWritten(ServerRemove) != GuardMessage(ServerRemove)
  {
    var right := NameOf(ServerRemove);
    var wrong := NameOf(ServerStart);
    assert right[7] == 'r' && wrong[7] == 's';
    MessagesDiffer(right, wrong, ArityOf(ServerRemove), 7);
  }

  /** Requirements for names that differ at some position differ. */
  lemma MessagesDiffer(name: string, other: string, a: Arity, k: nat)
    requires k < |name| && k < |other| && name[k] != other[k]
    ensures Requirement(name, a) != Requirement(other, a)
  {
    var m := Requirement(name, a);
    var n := Requirement(other, a);
    assert m[k + 1] == m[..|name| + 2][k + 1] == name[k];
    assert n[k + 1] == n[..|other| + 2][k + 1] == other[k];
  }

  /** `invalidCommand`: the message followed by the hint to type `help`. */
  function InvalidCommandText(s: string): (r: string)
    ensures |r| > |s| && r[..|s|] == s
    ensures r[|s|..] == "\n(`help' for more info)"
  {
    s + "\n(`help' for more info)"
  }

  /** The check at the top of each handler: None lets the handler go on,
      otherwise the text reported as an error. */
  function Guard(c: Command, args: seq<string>): (r: Option<string>)
    ensures r.None? <==> Accepts(ArityOf(c), |args|)
    ensures r.Some? ==> r.value == InvalidCommandText(GuardMessage(c))
  {
    if Accepts(ArityOf(c), |args|) then None else Some(InvalidCommandText(GuardMessage(c)))
  }

  // ---------------------------------------------------------------------
  // Handlers that split their arguments

  /** The registry request a handler sends once its arguments are checked. */
  datatype AdminRequest =
    | AddApplication(descriptor: string, targets: seq<string>, vars: map<string, string>, patch: bool)
    | DiffApplication(descriptor: string, targets: seq<string>, vars: map<string, string>)
    | SyncApplication(descriptor: string, targets: seq<string>, vars: map<string, string>)
    | InstantiateServer(application: string, node: string, template: string, vars: map<string, string>)

  /** `addApplication`, after the `-n|--no-patch` option has been taken out
      of `args`. */
  function AddApplicationCommand(args: seq<string>, noPatch: bool): (r: Result<AdminRequest, string>)
    ensures r.Err? <==> |args| < 1
    ensures r.Err? ==> r.error == Guard(ApplicationAdd, args).value
    ensures r.Ok? ==> r.value == AddApplication(args[0], PlainArguments(args[1..]), SplitArguments(args[1..]).0, !noPatch)
  {
    match Guard(ApplicationAdd, args)
    case Some(msg) => Err(msg)
    case None =>
      TargetsArePlainArguments(args[1..]);
      var (vars, targets) := SplitArguments(args[1..]);
      Ok(AddApplication(args[0], targets, vars, !noPatch))
  }

  /** `diffApplication`. */
  function DiffApplicationCommand(args: seq<string>): (r: Result<AdminRequest, string>)
    ensures r.Err? <==> |args| < 1
    ensures r.Err? ==> r.error == Guard(ApplicationDiff, args).value
    ensures r.Ok? ==> r.value == DiffApplication(args[0], PlainArguments(args[1..]), SplitArguments(args[1..]).0)
  {
    match Guard(ApplicationDiff, args)
    case Some(msg) => Err(msg)
    case None =>
      TargetsArePlainArguments(args[1..]);
      var (vars, targets) := SplitArguments(args[1..]);
      Ok(DiffApplication(args[0], targets, vars))
  }

  /** `updateApplication`. */
  function UpdateApplicationCommand(args: seq<string>): (r: Result<AdminRequest, string>)
    ensures r.Err? <==> |args| < 1
    ensures r.Err? ==> r.error == Guard(ApplicationUpdate, args).value
    ensures r.Ok? ==> r.value == SyncApplication(args[0], PlainArguments(args[1..]), SplitArguments(args[1..]).0)
  {
    match Guard(ApplicationUpdate, args)
    case Some(msg) => Err(msg)
    case None =>
      TargetsArePlainArguments(args[1..]);
      var (vars, targets) := SplitArguments(args[1..]);
      Ok(SyncApplication(args[0], targets, vars))
  }

  /** `instantiateServerTemplate`: application, node and template, then
      variables; arguments without '=' are dropped. */
  function InstantiateServerTemplateCommand(args: seq<string>): (r: Result<AdminRequest, string>)
    ensures r.Err? <==> |args| < 3
    ensures r.Err? ==> r.error == Guard(ServerTemplateInstantiate, args).value
    ensures r.Ok? ==> r.value == InstantiateServer(args[0], args[1], args[2], SplitArguments(args[3..]).0)
  {
    match Guard(ServerTemplateInstantiate, args)
    case Some(msg) => Err(msg)
    case None => Ok(InstantiateServer(args[0], args[1], args[2], SplitArguments(args[3..]).0))
  }

  /** Plain arguments do not affect the variables of an instantiation. */
  lemma InstantiateIgnoresPlainArguments(args: seq<string>, a: string)
    requires |args| >= 3 && a in args[3..] && '=' !in a
    ensures InstantiateServerTemplateCommand(args).value.vars
      == InstantiateServerTemplateCommand(args[..3] + RemoveAll(args[3..], a)).value.vars
  {
    var args' := args[..3] + RemoveAll(args[3..], a);
    assert args'[3..] == RemoveAll(args[3..], a);
    assert args'[..3] == args[..3];
    VariablesWithout(args[3..], a);
  }
}
