/** The mode-addressed protocol engine of pygascard/device.py: the `Gascard`
    class, its handshake, its mode cache and its `get`/`set` requests. The
    code table of codes.json and the `float()` test are parameters. */
module Device {
  import opened Wrappers
  import opened Text
  import opened Comm
  import opened Records

  /** `_MODES`: the register pages of the card. */
  datatype Mode = N | N1 | C1 | E1 | O1 | D | X | U

  /** The command that selects a mode, and the key of its table entry. */
  function Code(m: Mode): string {
    match m
    case N => "N"
    case N1 => "N1"
    case C1 => "C1"
    case E1 => "E1"
    case O1 => "O1"
    case D => "D"
    case X => "X"
    case U => "U"
  }

  /** `mode in self._MODES`, with the mode it names: the eight codes are
      exactly the strings accepted, each naming one mode. */
  function ParseMode(s: string): (r: Option<Mode>)
    ensures forall m :: r == Some(m) <==> Code(m) == s
  {
    if s == "N" then Some(N)
    else if s == "N1" then Some(N1)
    else if s == "C1" then Some(C1)
    else if s == "E1" then Some(E1)
    else if s == "O1" then Some(O1)
    else if s == "D" then Some(D)
    else if s == "X" then Some(X)
    else if s == "U" then Some(U)
    else None
  }

  /** `MODES_FUNC[mode]` in `get`: every mode but D has a reader. */
  function ReaderFor(key: string): (r: Option<Mode>)
    ensures r.Some? ==> r.value != D && Code(r.value) == key
    ensures r.None? <==> ParseMode(key).None? || key == "D"
  {
    match ParseMode(key)
    case Some(m) => if m == D then None else Some(m)
    case None => None
  }

  /** `acc_gas` of `_get_userinterface`, compared after the conversion. */
  const ACCEPTED_GASES: seq<Value> := [Str("CO"), Str("CO2"), Str("CH4")]

  /** The leading-token test of each reader. N, E1, X and U look for a letter
      inside the first token; N1, C1 and O1 look for the exact token among
      the first two. An empty reply fails the first kind with IndexError. */
  function LeadCheck(m: Mode, df: seq<string>): Option<Error>
    requires m != D
  {
    match m
    case N => if df == [] then Some(IndexError)
      else if 'N' !in df[0] then Some(ValueError("Gas Card Not in Normal Mode")) else None
    case N1 => if "N1" !in Take(df, 2) then Some(ValueError("Gas Card Not in Normal Mode")) else None
    case C1 => if "C1" !in Take(df, 2) then Some(ValueError("Gas Card Not in Coefficient Mode")) else None
    case E1 => if df == [] then Some(IndexError)
      else if 'E' !in df[0] then Some(ValueError("Gas Card Not in Environmental Mode")) else None
    case O1 => if "O1" !in Take(df, 2) then Some(ValueError("Gas Card Not in Output Mode")) else None
    case X => if df == [] then Some(IndexError)
      else if 'X' !in df[0] then Some(ValueError("Gas Card Not in Settings Mode")) else None
    case U => if df == [] then Some(IndexError)
      else if 'U' !in df[0] then Some(ValueError("Gas Card Not in User Interface Mode")) else None
  }

  /** The readers of N, E1, X and U accept a first token that merely contains
      the mode's letter; those of N1, C1 and O1 want the mode code itself as
      one of the first two tokens. */
  lemma LeadCheckPasses(m: Mode, df: seq<string>)
    requires m != D
    ensures m in {N, E1, X, U} ==> (LeadCheck(m, df).None? <==> df != [] && Code(m)[0] in df[0])
    ensures m in {N1, C1, O1} ==>
      (LeadCheck(m, df).None? <==> exists i | 0 <= i < |df| && i < 2 :: df[i] == Code(m))
  {
    if m in {N1, C1, O1} {
      var t := Take(df, 2);
      assert |t| <= 2 && forall i | 0 <= i < |t| :: t[i] == df[i];
      if exists i | 0 <= i < |df| && i < 2 :: df[i] == Code(m) {
        var i :| 0 <= i < |df| && i < 2 && df[i] == Code(m);
        assert t[i] == Code(m);
      }
    }
  }

  /** The tokens of a reply once NULs are gone. */
  function Tokens(reply: string): seq<string> {
    Split(RemoveNul(reply))
  }

  function ConvertedAll(df: seq<string>, isNum: string -> bool): seq<Value> {
    seq(|df|, i requires 0 <= i < |df| => Converted(df[i], isNum))
  }

  /** What a mode reader returns or raises for the line it read. */
  function ModeReply(m: Mode, labels: seq<string>, isNum: string -> bool, reply: Result<string, Error>): Result<Record, Error>
    requires m != D
  {
    if reply.Failure? then Failure(reply.error)
    else
      var df := Tokens(reply.value);
      var check := LeadCheck(m, df);
      if check.Some? then Failure(check.value)
      else
        var vals := ConvertedAll(df, isNum);
        if m == U && |vals| < 3 then Failure(IndexError)
        else if m == U && vals[2] !in ACCEPTED_GASES then Failure(ValueError("Gas Not Accepted"))
        else Success(Zip(labels, vals))
  }

  /** A decoded record binds the first min(|labels|, |tokens|) labels, each
      to the token at its own position, as a number exactly when `float()`
      accepts it. */
  lemma ModeReplyFields(m: Mode, labels: seq<string>, isNum: string -> bool, reply: Result<string, Error>, i: nat)
    requires m != D && ModeReply(m, labels, isNum, reply).Success?
    requires i < |labels| && i < |Tokens(reply.value)|
    requires forall j | i < j < |labels| :: labels[j] != labels[i]
    ensures ModeReply(m, labels, isNum, reply).value.Keys ==
      set j | 0 <= j < Min(|labels|, |Tokens(reply.value)|) :: labels[j]
    ensures ModeReply(m, labels, isNum, reply).value[labels[i]].text == Tokens(reply.value)[i]
    ensures ModeReply(m, labels, isNum, reply).value[labels[i]].Num? <==> isNum(Tokens(reply.value)[i])
  {
    ZipAt(labels, ConvertedAll(Tokens(reply.value), isNum), i);
  }

  /** The user-interface reader also rejects a gas other than CO, CO2 or CH4
      in the third field (a token `float()` accepts is never one of them). */
  lemma UserInterfaceGasCheck(labels: seq<string>, isNum: string -> bool, reply: Result<string, Error>)
    requires reply.Success? && LeadCheck(U, Tokens(reply.value)).None?
    ensures ModeReply(U, labels, isNum, reply).Success? <==>
      |Tokens(reply.value)| >= 3 && Tokens(reply.value)[2] in ["CO", "CO2", "CH4"] && !isNum(Tokens(reply.value)[2])
  {
    var df := Tokens(reply.value);
    if |df| >= 3 {
      var v := ConvertedAll(df, isNum)[2];
      assert v == Converted(df[2], isNum);
      if v in ACCEPTED_GASES {
        assert v.Str? && v.text == df[2];
      }
      if df[2] in ["CO", "CO2", "CH4"] && !isNum(df[2]) {
        assert v == Str(df[2]);
      }
    }
  }

  /** `new_device` after its write: the device info, or why there is none. */
  function Handshake(port: string, reply: Result<string, Error>, labels: seq<string>): Result<map<string, string>, Error> {
    if !("/dev/" <= port) then Failure(UnboundLocalError("device"))
    else if reply.Failure? then Failure(reply.error)
    else if reply.value == "" then Failure(ValueError("No device found on port"))
    else
      var toks := Tokens(reply.value);
      if toks == [] then Failure(IndexError)
      else if 'U' !in toks[0] then Failure(ValueError("Gas Card Not in User Interface Mode"))
      else Success(Zip(labels, toks))
  }

  /** On a `/dev/` port the handshake succeeds exactly when the reply has a
      first token and that token contains "U"; an empty reply is reported as
      no device. */
  lemma HandshakeOutcome(port: string, reply: Result<string, Error>, labels: seq<string>)
    requires "/dev/" <= port && reply.Success?
    ensures Handshake(port, reply, labels).Success? <==>
      Tokens(reply.value) != [] && 'U' in Tokens(reply.value)[0]
    ensures reply.value == "" ==> Handshake(port, reply, labels) == Failure(ValueError("No device found on port"))
  {
    if reply.value == "" {
      assert RemoveNul(reply.value) == "";
      assert Tokens(reply.value) == [];
    }
  }

  /** A successful handshake binds the user-interface labels to the raw
      tokens, position by position, with no numeric conversion. */
  lemma HandshakeInfo(port: string, reply: Result<string, Error>, labels: seq<string>, i: nat)
    requires Handshake(port, reply, labels).Success?
    requires i < |labels| && i < |Tokens(reply.value)|
    requires forall j | i < j < |labels| :: labels[j] != labels[i]
    ensures Handshake(port, reply, labels).value.Keys ==
      set j | 0 <= j < Min(|labels|, |Tokens(reply.value)|) :: labels[j]
    ensures Handshake(port, reply, labels).value[labels[i]] == Tokens(reply.value)[i]
  {
    ZipAt(labels, Tokens(reply.value), i);
  }

  /** What `_get_mode` makes of the line it read: its first two characters,
      stripped, when they name a mode. */
  function ModeOfReply(reply: Result<string, Error>): Result<string, Error> {
    if reply.Failure? then Failure(reply.error)
    else
      var mode := Strip(Take(reply.value, 2));
      if ParseMode(mode).Some? then Success(mode) else Failure(ValueError("Invalid Mode"))
  }

  // ------------------------------------------------------------------ set

  /** One write `set` plans: a field's mode, its wire code and the value. */
  datatype Assign = Assign(mode: string, code: string, value: string)

  function Keys(params: seq<(string, string)>): seq<string> {
    seq(|params|, i requires 0 <= i < |params| => params[i].0)
  }

  predicate HasCode(table: CodeTable, p: Pos) {
    p.entry < |table| && p.index < |table[p.entry].codes|
  }

  /** The `modes` list of `set`: one write per match, with the code at the
      label's index; IndexError when that index is past the code list. */
  function SetPlan(params: seq<(string, string)>, table: CodeTable): Result<seq<Assign>, Error> {
    var hits := Hits(Keys(params), table, |params|);
    HitsBelow(Keys(params), table, |params|);
    if exists i | 0 <= i < |hits| :: !HasCode(table, hits[i]) then Failure(IndexError)
    else Success(seq(|hits|, i requires 0 <= i < |hits| =>
      Assign(table[hits[i].entry].mode, table[hits[i].entry].codes[hits[i].index], params[hits[i].req].1)))
  }

  /** The planned writes are exactly one per (parameter, entry, label) match,
      with the entry's mode, the code at the label's index and the value;
      parameters that match no label are not written. There are as many
      writes as matches, which `HitsExactly` lists once each. */
  lemma SetPlanExactly(params: seq<(string, string)>, table: CodeTable, a: Assign)
    requires SetPlan(params, table).Success?
    ensures |SetPlan(params, table).value| == |Hits(Keys(params), table, |params|)|
    ensures a in SetPlan(params, table).value <==>
      exists p | IsHit(Keys(params), table, p) ::
        p.index < |table[p.entry].codes| &&
        a == Assign(table[p.entry].mode, table[p.entry].codes[p.index], params[p.req].1)
  {
    var hits := Hits(Keys(params), table, |params|);
    var plan := SetPlan(params, table).value;
    if a in plan {
      var i :| 0 <= i < |plan| && plan[i] == a;
      HitsAreHits(Keys(params), table);
      assert IsHit(Keys(params), table, hits[i]) && HasCode(table, hits[i]);
    }
    if exists p | IsHit(Keys(params), table, p) ::
        p.index < |table[p.entry].codes| &&
        a == Assign(table[p.entry].mode, table[p.entry].codes[p.index], params[p.req].1) {
      var p :| IsHit(Keys(params), table, p) &&
        p.index < |table[p.entry].codes| &&
        a == Assign(table[p.entry].mode, table[p.entry].codes[p.index], params[p.req].1);
      var i := HitIndex(Keys(params), table, p);
      assert plan[i] == a;
    }
  }

  /** `f"{code}{value}"` for the planned writes of mode `k`, in plan order. */
  function CommandsFor(plan: seq<Assign>, k: string): seq<string> {
    if plan == [] then []
    else
      var last := plan[|plan| - 1];
      CommandsFor(plan[..|plan| - 1], k) + (if last.mode == k then [last.code + last.value] else [])
  }

  /** Writing `cmds` one after the other: the ones sent, and the encoding error
      that stops the run at the first non-ASCII command. */
  function WriteRun(cmds: seq<string>): (Outcome<Error>, seq<string>) {
    if cmds == [] then (Pass, [])
    else
      var (o, w) := WriteRun(cmds[..|cmds| - 1]);
      if o.Fail? then (o, w)
      else if IsAscii(cmds[|cmds| - 1]) then (Pass, w + [cmds[|cmds| - 1]])
      else (Fail(UnicodeEncodeError), w)
  }

  /** Where a run of `set` stands: its outcome, every command sent (mode
      switches included), the field writes alone, and the mode cache. */
  datatype SetState = SetState(result: Outcome<Error>, sent: seq<string>, fields: seq<string>, mode: Mode)

  /** One mode of `set`: select it if the cache says another mode is active
      (rejecting a key outside `_MODES`), then write its fields. */
  function SetStep(cur: Mode, k: string, plan: seq<Assign>): SetState {
    if Code(cur) != k && ParseMode(k).None? then SetState(Fail(ValueError("Invalid Mode")), [], [], cur)
    else
      var (next, switch) := if Code(cur) == k then (cur, []) else (ParseMode(k).value, [k]);
      var (o, w) := WriteRun(CommandsFor(plan, k));
      SetState(o, switch + w, w, next)
  }

  /** `set` visiting the modes of `order` in turn, from mode cache `cur`. */
  function SetRun(order: seq<string>, plan: seq<Assign>, cur: Mode): SetState {
    if order == [] then SetState(Pass, [], [], cur)
    else Then(SetRun(order[..|order| - 1], plan, cur), order[|order| - 1], plan)
  }

  /** A run of `set` followed by mode `k`: nothing more once a step failed. */
  function Then(prev: SetState, k: string, plan: seq<Assign>): SetState {
    if prev.result.Fail? then prev
    else
      var step := SetStep(prev.mode, k, plan);
      SetState(step.result, prev.sent + step.sent, prev.fields + step.fields, step.mode)
  }

  lemma SetRunSnocThen(order: seq<string>, k: string, plan: seq<Assign>, cur: Mode)
    ensures SetRun(order + [k], plan, cur) == Then(SetRun(order, plan, cur), k, plan)
  {
    assert (order + [k])[..|order|] == order;
  }

  function Modes(plan: seq<Assign>): set<string> {
    set i | 0 <= i < |plan| :: plan[i].mode
  }

  function AllCommands(plan: seq<Assign>): seq<string> {
    seq(|plan|, i requires 0 <= i < |plan| => plan[i].code + plan[i].value)
  }

  /** Commands of the plan whose mode is in `ks`, in plan order. */
  function CommandsIn(plan: seq<Assign>, ks: set<string>): seq<string> {
    if plan == [] then []
    else
      var last := plan[|plan| - 1];
      CommandsIn(plan[..|plan| - 1], ks) + (if last.mode in ks then [last.code + last.value] else [])
  }

  lemma {:induction false} CommandsInAdd(plan: seq<Assign>, ks: set<string>, k: string)
    requires k !in ks
    ensures multiset(CommandsIn(plan, ks + {k})) == multiset(CommandsIn(plan, ks)) + multiset(CommandsFor(plan, k))
    decreases |plan|
  {
    if plan != [] {
      CommandsInAdd(plan[..|plan| - 1], ks, k);
    }
  }

  lemma {:induction false} CommandsInEmpty(plan: seq<Assign>)
    ensures CommandsIn(plan, {}) == []
    decreases |plan|
  {
    if plan != [] {
      CommandsInEmpty(plan[..|plan| - 1]);
    }
  }

  lemma {:induction false} CommandsInAll(plan: seq<Assign>, ks: set<string>)
    requires Modes(plan) <= ks
    ensures CommandsIn(plan, ks) == AllCommands(plan)
    decreases |plan|
  {
    if plan != [] {
      var init := plan[..|plan| - 1];
      assert Modes(init) <= Modes(plan) by {
        forall k | k in Modes(init) ensures k in Modes(plan) {
          var i :| 0 <= i < |init| && init[i].mode == k;
          assert plan[i].mode == k;
        }
      }
      CommandsInAll(init, ks);
      assert plan[|plan| - 1].mode in Modes(plan);
      assert AllCommands(plan) == AllCommands(init) + [plan[|plan| - 1].code + plan[|plan| - 1].value];
    }
  }

  lemma {:induction false} WriteRunAscii(cmds: seq<string>)
    requires forall i | 0 <= i < |cmds| :: IsAscii(cmds[i])
    ensures WriteRun(cmds) == (Pass, cmds)
    decreases |cmds|
  {
    if cmds != [] {
      WriteRunAscii(cmds[..|cmds| - 1]);
      assert cmds[..|cmds| - 1] + [cmds[|cmds| - 1]] == cmds;
    }
  }

  lemma {:induction false} CommandsForAscii(plan: seq<Assign>, k: string)
    requires forall i | 0 <= i < |plan| :: IsAscii(plan[i].code + plan[i].value)
    ensures forall i | 0 <= i < |CommandsFor(plan, k)| :: IsAscii(CommandsFor(plan, k)[i])
    decreases |plan|
  {
    if plan != [] {
      CommandsForAscii(plan[..|plan| - 1], k);
    }
  }

  /** One mode of a run whose commands are all ASCII passes and writes all
      of that mode's planned commands, after at most one switch. */
  lemma SetStepPasses(cur: Mode, k: string, plan: seq<Assign>)
    requires ParseMode(k).Some?
    requires forall i | 0 <= i < |plan| :: IsAscii(plan[i].code + plan[i].value)
    ensures SetStep(cur, k, plan).result == Pass
    ensures SetStep(cur, k, plan).fields == CommandsFor(plan, k)
    ensures |SetStep(cur, k, plan).sent| <= |CommandsFor(plan, k)| + 1
  {
    CommandsForAscii(plan, k);
    WriteRunAscii(CommandsFor(plan, k));
  }

  lemma DistinctPrefix(order: seq<string>, plan: seq<Assign>)
    requires order != []
    requires forall i, j | 0 <= i < j < |order| :: order[i] != order[j]
    requires forall i | 0 <= i < |order| :: order[i] in Modes(plan)
    ensures var init := order[..|order| - 1];
      && (forall i, j | 0 <= i < j < |init| :: init[i] != init[j])
      && (forall i | 0 <= i < |init| :: init[i] in Modes(plan))
      && order[|order| - 1] !in (set x | x in init)
      && (set x | x in order) == (set x | x in init) + {order[|order| - 1]}
  {
    var init := order[..|order| - 1];
    var k := order[|order| - 1];
    assert order == init + [k];
    forall j | 0 <= j < |init| ensures init[j] != k {
      assert init[j] == order[j];
    }
  }

  /** Every planned mode is one of `_MODES` and every planned command is ASCII. */
  predicate ValidPlan(plan: seq<Assign>) {
    forall i | 0 <= i < |plan| :: ParseMode(plan[i].mode).Some? && IsAscii(plan[i].code + plan[i].value)
  }

  lemma ValidPlanMode(plan: seq<Assign>, k: string)
    requires ValidPlan(plan) && k in Modes(plan)
    ensures ParseMode(k).Some?
  {
    var i :| 0 <= i < |plan| && plan[i].mode == k;
  }

  /** When every planned mode is a valid mode, every command is ASCII and the
      visit order lists planned modes without repetition, `set` succeeds and
      writes each planned field of the visited modes exactly once; the only
      other writes are mode switches, at most one per mode. */
  lemma {:induction false} SetRunWritesEachField(order: seq<string>, plan: seq<Assign>, cur: Mode)
    requires ValidPlan(plan)
    requires forall i, j | 0 <= i < j < |order| :: order[i] != order[j]
    requires forall i | 0 <= i < |order| :: order[i] in Modes(plan)
    ensures SetRun(order, plan, cur).result == Pass
    ensures multiset(SetRun(order, plan, cur).fields) == multiset(CommandsIn(plan, set k | k in order))
    ensures |SetRun(order, plan, cur).sent| <= |SetRun(order, plan, cur).fields| + |order|
    decreases |order|
  {
    if order == [] {
      CommandsInEmpty(plan);
      assert (set k | k in order) == {};
    } else {
      var init := order[..|order| - 1];
      var k := order[|order| - 1];
      DistinctPrefix(order, plan);
      SetRunWritesEachField(init, plan, cur);
      ValidPlanMode(plan, k);
      ThenWrites(SetRun(init, plan, cur), k, plan, set x | x in init, |init|);
    }
  }

  /** One more valid mode, not yet visited, adds exactly its planned
      commands to a passing run, and at most one switch. */
  lemma ThenWrites(prev: SetState, k: string, plan: seq<Assign>, before: set<string>, n: nat)
    requires ValidPlan(plan)
    requires ParseMode(k).Some? && k !in before
    requires prev.result == Pass
    requires multiset(prev.fields) == multiset(CommandsIn(plan, before))
    requires |prev.sent| <= |prev.fields| + n
    ensures Then(prev, k, plan).result == Pass
    ensures multiset(Then(prev, k, plan).fields) == multiset(CommandsIn(plan, before + {k}))
    ensures |Then(prev, k, plan).sent| <= |Then(prev, k, plan).fields| + n + 1
  {
    SetStepPasses(prev.mode, k, plan);
    CommandsInAdd(plan, before, k);
    calc {
      multiset(Then(prev, k, plan).fields);
      multiset(prev.fields) + multiset(CommandsFor(plan, k));
      multiset(CommandsIn(plan, before)) + multiset(CommandsFor(plan, k));
      multiset(CommandsIn(plan, before + {k}));
    }
  }

  /** With the visit order an enumeration of all planned modes, the field
      writes are the planned commands, each once, in some order. */
  lemma SetRunCoversPlan(order: seq<string>, plan: seq<Assign>, cur: Mode)
    requires ValidPlan(plan)
    requires forall i, j | 0 <= i < j < |order| :: order[i] != order[j]
    requires (set k | k in order) == Modes(plan)
    ensures SetRun(order, plan, cur).result == Pass
    ensures multiset(SetRun(order, plan, cur).fields) == multiset(AllCommands(plan))
  {
    SetRunWritesEachField(order, plan, cur);
    CommandsInAll(plan, (set k | k in order));
  }

  /** What a card's `set` answers, whatever its mode cache and visit order:
      the planning error when a label has no code; otherwise it passes
      exactly when every planned mode is one of `_MODES` and every planned
      command is ASCII, and it can fail only with the encoding error or
      "Invalid Mode". */
  predicate SetAnswer(params: seq<(string, string)>, table: CodeTable, r: Outcome<Error>) {
    match SetPlan(params, table)
    case Failure(e) => r == Fail(e)
    case Success(plan) =>
      && (r == Pass <==> ValidPlan(plan))
      && (r == Pass || r == Fail(UnicodeEncodeError) || r == Fail(ValueError("Invalid Mode")))
  }

  /** Writing passes exactly when every command is ASCII, and otherwise
      stops with the encoding error. */
  lemma {:induction false} WriteRunOutcome(cmds: seq<string>)
    ensures WriteRun(cmds).0 == Pass || WriteRun(cmds).0 == Fail(UnicodeEncodeError)
    ensures WriteRun(cmds).0 == Pass <==> AllAscii(cmds)
    decreases |cmds|
  {
    if cmds != [] {
      var init := cmds[..|cmds| - 1];
      WriteRunOutcome(init);
      assert forall i | 0 <= i < |init| :: init[i] == cmds[i];
    }
  }

  /** Each planned write is among the commands of its own mode. */
  lemma {:induction false} CommandsForHas(plan: seq<Assign>, i: nat)
    requires i < |plan|
    ensures plan[i].code + plan[i].value in CommandsFor(plan, plan[i].mode)
    decreases |plan|
  {
    if i < |plan| - 1 {
      CommandsForHas(plan[..|plan| - 1], i);
    }
  }

  /** Mode `k` can be carried out: it is one of `_MODES` and its planned
      commands are all ASCII. */
  predicate StepOk(plan: seq<Assign>, k: string) {
    ParseMode(k).Some? && AllAscii(CommandsFor(plan, k))
  }

  predicate AllAscii(cmds: seq<string>) {
    forall i | 0 <= i < |cmds| :: IsAscii(cmds[i])
  }

  /** One mode of `set` passes exactly when that mode can be carried out,
      whatever the cache; otherwise it fails with "Invalid Mode" or the
      encoding error. */
  lemma SetStepOutcome(cur: Mode, k: string, plan: seq<Assign>)
    ensures var o := SetStep(cur, k, plan).result;
      o == Pass || o == Fail(UnicodeEncodeError) || o == Fail(ValueError("Invalid Mode"))
    ensures SetStep(cur, k, plan).result == Pass <==> StepOk(plan, k)
  {
    assert ParseMode(Code(cur)) == Some(cur);
    WriteRunOutcome(CommandsFor(plan, k));
  }

  /** A run of `set` fails only with "Invalid Mode" or the encoding error. */
  lemma {:induction false} SetRunErrors(order: seq<string>, plan: seq<Assign>, cur: Mode)
    ensures var o := SetRun(order, plan, cur).result;
      o == Pass || o == Fail(UnicodeEncodeError) || o == Fail(ValueError("Invalid Mode"))
    decreases |order|
  {
    if order != [] {
      var init := order[..|order| - 1];
      SetRunErrors(init, plan, cur);
      SetStepOutcome(SetRun(init, plan, cur).mode, order[|order| - 1], plan);
    }
  }

  /** Every mode of `order` can be carried out. */
  predicate OrderOk(plan: seq<Assign>, order: seq<string>)
    decreases |order|
  {
    order != [] ==> OrderOk(plan, order[..|order| - 1]) && StepOk(plan, order[|order| - 1])
  }

  lemma {:induction false} OrderOkEach(plan: seq<Assign>, order: seq<string>)
    ensures OrderOk(plan, order) <==> forall k | k in order :: StepOk(plan, k)
    decreases |order|
  {
    if order != [] {
      var init := order[..|order| - 1];
      OrderOkEach(plan, init);
      assert order == init + [order[|order| - 1]];
    }
  }

  /** A run of `set` passes exactly when every visited mode can be carried
      out. */
  lemma {:induction false} SetRunOutcome(order: seq<string>, plan: seq<Assign>, cur: Mode)
    ensures SetRun(order, plan, cur).result == Pass <==> forall k | k in order :: StepOk(plan, k)
  {
    SetRunOk(order, plan, cur);
    OrderOkEach(plan, order);
  }

  lemma {:induction false} SetRunOk(order: seq<string>, plan: seq<Assign>, cur: Mode)
    ensures SetRun(order, plan, cur).result == Pass <==> OrderOk(plan, order)
    decreases |order|
  {
    if order != [] {
      var init := order[..|order| - 1];
      SetRunOk(init, plan, cur);
      SetStepOutcome(SetRun(init, plan, cur).mode, order[|order| - 1], plan);
    }
  }

  /** The outcome of a run of `set` that visits planned modes only, and all
      of them when it passes, is what `SetAnswer` allows. */
  lemma SetRunAnswers(params: seq<(string, string)>, table: CodeTable, visited: seq<string>, cur: Mode)
    requires SetPlan(params, table).Success?
    requires var plan := SetPlan(params, table).value;
      && (forall i | 0 <= i < |visited| :: visited[i] in Modes(plan))
      && (SetRun(visited, plan, cur).result == Pass ==> (set k | k in visited) == Modes(plan))
    ensures SetAnswer(params, table, SetRun(visited, SetPlan(params, table).value, cur).result)
  {
    var plan := SetPlan(params, table).value;
    SetRunErrors(visited, plan, cur);
    SetRunOutcome(visited, plan, cur);
    if SetRun(visited, plan, cur).result == Pass {
      forall i | 0 <= i < |plan| ensures ParseMode(plan[i].mode).Some? && IsAscii(plan[i].code + plan[i].value) {
        assert plan[i].mode in Modes(plan);
        assert StepOk(plan, plan[i].mode);
        CommandsForHas(plan, i);
      }
    }
    if ValidPlan(plan) {
      forall k | k in visited ensures StepOk(plan, k) {
        ValidPlanMode(plan, k);
        CommandsForAscii(plan, k);
      }
    }
  }

  /** The card has carried out `run`: every step passed, the cache is where
      the run left it and the frames sent after `sent0` are the run's. */
  predicate Tracks(run: SetState, sent0: seq<seq<Byte>>, cur: Mode, sent: seq<seq<Byte>>) {
    && run.result == Pass && run.mode == cur
    && (forall i | 0 <= i < |run.sent| :: IsAscii(run.sent[i]))
    && sent == sent0 + FramesOf(run.sent)
  }

  /** A tracked run followed by one more mode's step is the run extended by
      that mode. */
  lemma TracksExtend(run: SetState, k: string, plan: seq<Assign>, sent0: seq<seq<Byte>>,
                     cur: Mode, sent: seq<seq<Byte>>, r: Outcome<Error>, cur': Mode, sent': seq<seq<Byte>>)
    requires Tracks(run, sent0, cur, sent)
    requires var step := SetStep(cur, k, plan);
      && (forall i | 0 <= i < |step.sent| :: IsAscii(step.sent[i]))
      && r == step.result && cur' == step.mode && sent' == sent + FramesOf(step.sent)
    ensures var next := Then(run, k, plan);
      && r == next.result && cur' == next.mode
      && (forall i | 0 <= i < |next.sent| :: IsAscii(next.sent[i]))
      && sent' == sent0 + FramesOf(next.sent)
  {
    var step := SetStep(cur, k, plan);
    FramesOfAppend(run.sent, step.sent);
    var a := FramesOf(run.sent);
    var b := FramesOf(step.sent);
    assert (sent0 + a) + b == sent0 + (a + b);
  }

  /** Moving one mode from the modes still to visit to the visit order keeps
      the order distinct and the two together equal to all modes. */
  lemma VisitOne(visited: seq<string>, remaining: set<string>, mode: string, all: set<string>)
    requires mode in remaining && remaining <= all
    requires forall i, j | 0 <= i < j < |visited| :: visited[i] != visited[j]
    requires forall k :: k in visited <==> k in all && k !in remaining
    ensures forall i, j | 0 <= i < j < |visited + [mode]| :: (visited + [mode])[i] != (visited + [mode])[j]
    ensures forall k :: k in visited + [mode] <==> k in all && k !in remaining - {mode}
  {
  }

  /** Once a write has failed, later commands are not written. */
  lemma {:induction false} WriteRunStops(cmds: seq<string>, j: nat)
    requires j <= |cmds| && WriteRun(cmds[..j]).0.Fail?
    ensures WriteRun(cmds) == WriteRun(cmds[..j])
    decreases |cmds|
  {
    if j < |cmds| {
      var init := cmds[..|cmds| - 1];
      assert init[..j] == cmds[..j];
      WriteRunStops(init, j);
    } else {
      assert cmds[..j] == cmds;
    }
  }

  /** The frames of commands that are all ASCII. */
  function FramesOf(cmds: seq<string>): seq<seq<Byte>>
    requires forall i | 0 <= i < |cmds| :: IsAscii(cmds[i])
  {
    seq(|cmds|, i requires 0 <= i < |cmds| => Bytes(cmds[i]) + EOL)
  }

  lemma FramesOfAppend(a: seq<string>, b: seq<string>)
    requires forall i | 0 <= i < |a| :: IsAscii(a[i])
    requires forall i | 0 <= i < |b| :: IsAscii(b[i])
    ensures forall i | 0 <= i < |a + b| :: IsAscii((a + b)[i])
    ensures FramesOf(a + b) == FramesOf(a) + FramesOf(b)
  {
  }

  // ---------------------------------------------------------------- get

  /** The modes that own a requested name. */
  ghost function OwningModes(names: seq<string>, table: CodeTable): set<string> {
    set e, n | 0 <= e < |table| && n in names && n in table[e].labels :: table[e].mode
  }

  /** The requested names that some entry lists. */
  ghost function KnownNames(names: seq<string>, table: CodeTable): set<string> {
    set n | n in names && Known(table, n)
  }

  /** `[i[1] for i in modes if i[0] == mode]`. */
  function NamesFor(modes: seq<(string, string)>, k: string): set<string> {
    set i | 0 <= i < |modes| && modes[i].0 == k :: modes[i].1
  }

  /** The first requested name missing from a record (`ret[name]` raising). */
  function FirstMissing(names: seq<string>, rec: Record): (r: Option<string>)
    ensures r.None? <==> forall i | 0 <= i < |names| :: names[i] in rec
    ensures r.Some? ==> r.value in names && r.value !in rec
  {
    if names == [] then None
    else if names[0] !in rec then Some(names[0])
    else FirstMissing(names[1..], rec)
  }

  function NamesList(modes: seq<(string, string)>, k: string): (r: seq<string>)
    ensures forall n :: n in r <==> n in NamesFor(modes, k)
  {
    if modes == [] then []
    else
      var rest := NamesList(modes[1..], k);
      assert forall n :: n in NamesFor(modes[1..], k) <==> n in NamesFor(modes, k) && (modes[0].0 != k || n != modes[0].1 || n in NamesFor(modes[1..], k)) by {
        forall n ensures n in NamesFor(modes[1..], k) ==> n in NamesFor(modes, k) {
          if n in NamesFor(modes[1..], k) {
            var i :| 0 <= i < |modes[1..]| && modes[1..][i].0 == k && modes[1..][i].1 == n;
            assert modes[i + 1] == modes[1..][i];
          }
        }
        forall n | n in NamesFor(modes, k) && !(modes[0].0 == k && n == modes[0].1)
          ensures n in NamesFor(modes[1..], k)
        {
          var i :| 0 <= i < |modes| && modes[i].0 == k && modes[i].1 == n;
          assert i > 0;
          assert modes[1..][i - 1] == modes[i];
        }
      }
      (if modes[0].0 == k then [modes[0].1] else []) + rest
  }

  function PairModes(modes: seq<(string, string)>): set<string> {
    set i | 0 <= i < |modes| :: modes[i].0
  }

  function PairNames(modes: seq<(string, string)>): set<string> {
    set i | 0 <= i < |modes| :: modes[i].1
  }

  /** The names of the pairs whose mode has been read. */
  ghost function Collected(modes: seq<(string, string)>, visited: seq<string>): set<string> {
    set i | 0 <= i < |modes| && modes[i].0 in visited :: modes[i].1
  }

  lemma CollectedStep(modes: seq<(string, string)>, visited: seq<string>, k: string)
    ensures Collected(modes, visited + [k]) == Collected(modes, visited) + NamesFor(modes, k)
  {
    forall n | n in Collected(modes, visited + [k]) ensures n in Collected(modes, visited) + NamesFor(modes, k) {
      var i :| 0 <= i < |modes| && modes[i].0 in visited + [k] && modes[i].1 == n;
      if modes[i].0 !in visited {
        assert modes[i].0 == k;
      }
    }
    forall n | n in NamesFor(modes, k) ensures n in Collected(modes, visited + [k]) {
      var i :| 0 <= i < |modes| && modes[i].0 == k && modes[i].1 == n;
      assert modes[i].0 in visited + [k];
    }
  }

  /** `{name: rec[name] for name in names}` once every name is present. */
  function Pick(names: seq<string>, rec: Record): (r: Record)
    requires forall i | 0 <= i < |names| :: names[i] in rec
    ensures r.Keys == set n | n in names
    ensures forall n | n in r :: r[n] == rec[n]
  {
    map n | n in names :: rec[n]
  }

  lemma CollectedAll(modes: seq<(string, string)>, visited: seq<string>)
    requires forall i | 0 <= i < |modes| :: modes[i].0 in visited
    ensures Collected(modes, visited) == PairNames(modes)
  {
  }

  /** The `(mode, name)` list of `get`, one pair per match. */
  function ModesList(names: seq<string>, table: CodeTable, hits: seq<Pos>): seq<(string, string)>
    requires forall i | 0 <= i < |hits| :: IsHit(names, table, hits[i])
  {
    seq(|hits|, i requires 0 <= i < |hits| =>
      assert IsHit(names, table, hits[i]);
      (table[hits[i].entry].mode, names[hits[i].req]))
  }

  /** The pairs of `get` name exactly the owning modes and the known names. */
  lemma ModesListExactly(names: seq<string>, table: CodeTable)
    ensures forall i | 0 <= i < |Hits(names, table, |names|)| :: IsHit(names, table, Hits(names, table, |names|)[i])
    ensures var modes := ModesList(names, table, Hits(names, table, |names|));
      && PairModes(modes) == OwningModes(names, table)
      && PairNames(modes) == KnownNames(names, table)
  {
    var hits := Hits(names, table, |names|);
    HitsAreHits(names, table);
    var modes := ModesList(names, table, hits);
    forall k | k in OwningModes(names, table) ensures k in PairModes(modes) {
      var e, n :| 0 <= e < |table| && n in names && n in table[e].labels && table[e].mode == k;
      var r :| 0 <= r < |names| && names[r] == n;
      var l :| 0 <= l < |table[e].labels| && table[e].labels[l] == n;
      var i := HitIndex(names, table, Pos(r, e, l));
      assert modes[i].0 == k;
    }
    forall n | n in KnownNames(names, table) ensures n in PairNames(modes) {
      var e :| 0 <= e < |table| && n in table[e].labels;
      var r :| 0 <= r < |names| && names[r] == n;
      var l :| 0 <= l < |table[e].labels| && table[e].labels[l] == n;
      var i := HitIndex(names, table, Pos(r, e, l));
      assert modes[i].1 == n;
    }
    forall i | 0 <= i < |modes| ensures modes[i].0 in OwningModes(names, table) && modes[i].1 in KnownNames(names, table) {
      var p := hits[i];
      assert names[p.req] in names && names[p.req] in table[p.entry].labels;
      assert modes[i].0 == table[p.entry].mode;
    }
  }

  /** The `(mode, name)` pairs of `get` for the requested names `vals`. */
  function GetPairs(vals: seq<string>, table: CodeTable): seq<(string, string)> {
    HitsAreHits(vals, table);
    ModesList(vals, table, Hits(vals, table, |vals|))
  }

  /** A name no entry lists adds no `(mode, name)` pair: `get` ignores it. */
  lemma UnknownNameIgnored(vals: seq<string>, n: string, table: CodeTable)
    requires !Known(table, n)
    ensures GetPairs(vals + [n], table) == GetPairs(vals, table)
  {
    EntryHitsUnknown(n, table, |vals|, |table|);
    HitsPrefix(vals, [n], table, |vals|);
    var h := Hits(vals + [n], table, |vals| + 1);
    assert h == Hits(vals, table, |vals|);
    HitsAreHits(vals, table);
    HitsAreHits(vals + [n], table);
    var long := GetPairs(vals + [n], table);
    var short := GetPairs(vals, table);
    assert |long| == |short|;
    forall i | 0 <= i < |long| ensures long[i] == short[i] {
      assert (vals + [n])[h[i].req] == vals[h[i].req];
    }
  }

  /** Where `get` stands after some of its mode reads: the record so far or
      the error raised, the mode codes read, the frames written, the input
      left and the mode cache. */
  datatype GetState = GetState(result: Result<Record, Error>, readCodes: seq<string>, sent: seq<seq<Byte>>,
                               pending: seq<Event>, mode: Mode)

  /** One mode of `get`: `MODES_FUNC[k]` (KeyError for a mode without a
      reader), the reader's switch and line, then the names wanted from that
      mode, the first missing one raising KeyError. */
  function ReadStep(k: string, modes: seq<(string, string)>, table: CodeTable, isNum: string -> bool,
                    cur: Mode, pending: seq<Event>): GetState
  {
    match ReaderFor(k)
    case None => GetState(Failure(KeyError(k)), [], [], pending, cur)
    case Some(m) =>
      var rec := ModeReply(m, LabelsOf(table, Code(m)), isNum, ReadSpec(pending).0);
      var switch := if cur != m then [Bytes(Code(m)) + EOL] else [];
      var names := NamesList(modes, k);
      var out :=
        if rec.Failure? then Failure(rec.error)
        else if FirstMissing(names, rec.value).Some? then Failure(KeyError(FirstMissing(names, rec.value).value))
        else Success(Pick(names, rec.value));
      GetState(out, [k], switch, ReadSpec(pending).1, m)
  }

  /** `get` reading the modes of `order` in turn, from mode cache `cur` and
      input `pending`. */
  function GetRun(order: seq<string>, modes: seq<(string, string)>, table: CodeTable, isNum: string -> bool,
                  cur: Mode, pending: seq<Event>): GetState
  {
    if order == [] then GetState(Success(map[]), [], [], pending, cur)
    else GetThen(GetRun(order[..|order| - 1], modes, table, isNum, cur, pending), order[|order| - 1], modes, table, isNum)
  }

  /** A run of `get` followed by mode `k`: nothing more once a step failed. */
  function GetThen(prev: GetState, k: string, modes: seq<(string, string)>, table: CodeTable, isNum: string -> bool): GetState {
    if prev.result.Failure? then prev
    else
      var step := ReadStep(k, modes, table, isNum, prev.mode, prev.pending);
      GetState(if step.result.Failure? then step.result else Success(prev.result.value + step.result.value),
               prev.readCodes + step.readCodes, prev.sent + step.sent, step.pending, step.mode)
  }

  /** What `get` returns for `vals` from mode cache `cur` and pending input
      `pending` when it reads the owning modes in `order`: the normal-mode
      record when no name is requested, otherwise the run over `order`. */
  function GetReply(vals: seq<string>, table: CodeTable, isNum: string -> bool, order: seq<string>,
                    cur: Mode, pending: seq<Event>): Result<Record, Error>
  {
    if vals == [] then ModeReply(N, LabelsOf(table, "N"), isNum, ReadSpec(pending).0)
    else GetRun(order, GetPairs(vals, table), table, isNum, cur, pending).result
  }

  /** The mode cache and pending input `get` of `vals` leaves behind when it
      visits the modes in `order` from the mode `cur` with input `pending`. */
  function GetLeaves(vals: seq<string>, table: CodeTable, isNum: string -> bool, order: seq<string>,
                     cur: Mode, pending: seq<Event>): (Mode, seq<Event>)
  {
    if vals == [] then (N, ReadSpec(pending).1)
    else
      var run := GetRun(order, GetPairs(vals, table), table, isNum, cur, pending);
      (run.mode, run.pending)
  }

  /** `order` is a mode order `get` can take for `vals`: N alone when no name
      is requested; otherwise distinct modes owning a requested name, all of
      them when the request succeeds, whose record then holds exactly the
      requested names the table knows. */
  ghost predicate GetOrder(vals: seq<string>, table: CodeTable, order: seq<string>, result: Result<Record, Error>) {
    if vals == [] then order == ["N"]
    else
      && (forall i, j | 0 <= i < j < |order| :: order[i] != order[j])
      && (forall i | 0 <= i < |order| :: order[i] in OwningModes(vals, table))
      && (result.Success? ==> (set k | k in order) == OwningModes(vals, table))
      && (result.Success? ==> result.value.Keys == KnownNames(vals, table))
  }

  lemma GetRunSnocThen(order: seq<string>, k: string, modes: seq<(string, string)>, table: CodeTable,
                       isNum: string -> bool, cur: Mode, pending: seq<Event>)
    ensures GetRun(order + [k], modes, table, isNum, cur, pending) ==
      GetThen(GetRun(order, modes, table, isNum, cur, pending), k, modes, table, isNum)
  {
    assert (order + [k])[..|order|] == order;
  }

  /** A reader raises no KeyError: its errors come from the line read, the
      leading-token check or the gas check. */
  lemma ModeReplyNoKeyError(m: Mode, labels: seq<string>, isNum: string -> bool, reply: Result<string, Error>)
    requires m != D
    requires reply.Failure? ==> !reply.error.KeyError?
    ensures ModeReply(m, labels, isNum, reply).Failure? ==> !ModeReply(m, labels, isNum, reply).error.KeyError?
  {
  }

  lemma ReadSpecNoKeyError(evs: seq<Event>)
    ensures ReadSpec(evs).0.Failure? ==> ReadSpec(evs).0.error in {TypeError, UnicodeDecodeError}
  {
  }

  /** The only KeyError `get` raises names a visited mode without a reader
      or a wanted name its mode's record lacks. */
  lemma {:induction false} GetRunErrors(order: seq<string>, modes: seq<(string, string)>, table: CodeTable,
                                        isNum: string -> bool, cur: Mode, pending: seq<Event>)
    ensures var run := GetRun(order, modes, table, isNum, cur, pending);
      run.result.Failure? && run.result.error.KeyError? ==>
        (run.result.error.key in order && ReaderFor(run.result.error.key).None?) ||
        run.result.error.key in PairNames(modes)
    decreases |order|
  {
    if order != [] {
      var init := order[..|order| - 1];
      var k := order[|order| - 1];
      GetRunErrors(init, modes, table, isNum, cur, pending);
      var prev := GetRun(init, modes, table, isNum, cur, pending);
      if prev.result.Success? {
        ReadStepErrors(k, modes, table, isNum, prev.mode, prev.pending);
      }
    }
  }

  lemma ReadStepErrors(k: string, modes: seq<(string, string)>, table: CodeTable, isNum: string -> bool,
                       cur: Mode, pending: seq<Event>)
    ensures var step := ReadStep(k, modes, table, isNum, cur, pending);
      step.result.Failure? && step.result.error.KeyError? ==>
        (step.result.error.key == k && ReaderFor(k).None?) || step.result.error.key in PairNames(modes)
    ensures var step := ReadStep(k, modes, table, isNum, cur, pending);
      step.result.Success? ==> step.result.value.Keys == NamesFor(modes, k)
  {
    if ReaderFor(k).Some? {
      var m := ReaderFor(k).value;
      ReadSpecNoKeyError(pending);
      ModeReplyNoKeyError(m, LabelsOf(table, Code(m)), isNum, ReadSpec(pending).0);
    }
  }

  /** A successful run holds exactly the wanted names of the visited modes. */
  lemma {:induction false} GetRunKeys(order: seq<string>, modes: seq<(string, string)>, table: CodeTable,
                                      isNum: string -> bool, cur: Mode, pending: seq<Event>)
    ensures var run := GetRun(order, modes, table, isNum, cur, pending);
      run.result.Success? ==> run.result.value.Keys == Collected(modes, order)
    decreases |order|
  {
    if order != [] {
      var init := order[..|order| - 1];
      var k := order[|order| - 1];
      GetRunKeys(init, modes, table, isNum, cur, pending);
      var prev := GetRun(init, modes, table, isNum, cur, pending);
      assert order == init + [k];
      CollectedStep(modes, init, k);
      if prev.result.Success? {
        ReadStepErrors(k, modes, table, isNum, prev.mode, prev.pending);
      }
    }
  }

  /** The card has carried out the passing `get` run `run` with record
      `output` so far: the mode codes read, the frames written after `codes0` and
      `sent0`, the input left and the cache are the run's. */
  predicate GetTracks(run: GetState, output: Record, codes0: seq<string>, sent0: seq<seq<Byte>>,
                      codes: seq<string>, sent: seq<seq<Byte>>, pending: seq<Event>, cur: Mode)
  {
    && run.result == Success(output) && codes == codes0 + run.readCodes && sent == sent0 + run.sent
    && pending == run.pending && cur == run.mode
  }

  /** A tracked `get` run followed by one more mode's step is the run
      extended by that mode. */
  lemma GetTracksExtend(run: GetState, output: Record, k: string, modes: seq<(string, string)>, table: CodeTable,
                        isNum: string -> bool, codes0: seq<string>, sent0: seq<seq<Byte>>,
                        codes: seq<string>, sent: seq<seq<Byte>>, pending: seq<Event>, cur: Mode,
                        out: Result<Record, Error>, codes': seq<string>, sent': seq<seq<Byte>>, pending': seq<Event>, cur': Mode)
    requires GetTracks(run, output, codes0, sent0, codes, sent, pending, cur)
    requires var step := ReadStep(k, modes, table, isNum, cur, pending);
      && out == step.result && codes' == codes + step.readCodes && sent' == sent + step.sent
      && pending' == step.pending && cur' == step.mode
    ensures var next := GetThen(run, k, modes, table, isNum);
      && next.result == (if out.Failure? then out else Success(output + out.value))
      && codes' == codes0 + next.readCodes && sent' == sent0 + next.sent && pending' == next.pending && cur' == next.mode
  {
    var step := ReadStep(k, modes, table, isNum, cur, pending);
    assert codes' == codes0 + (run.readCodes + step.readCodes);
    assert sent' == sent0 + (run.sent + step.sent);
  }

  /** `Gascard`: one card behind one serial transport. */
  class Gascard {
    /** `_device`. */
    const device: SerialDevice
    /** `_dev_info`, captured by the handshake. */
    const devInfo: map<string, string>
    /** The `values` table of codes.json. */
    const table: CodeTable
    /** Whether `float()` accepts a token. */
    const isNum: string -> bool
    /** `_current_mode`: the mode the card is believed to be in. */
    var currentMode: Mode
    /** The separate attribute `current_mode` that `_get_mode` assigns. */
    var reportedMode: Option<string>
    /** The codes of the modes read by the mode readers, oldest first. */
    ghost var modeReads: seq<string>
    /** The parameters of every `set` call, oldest first. */
    ghost var setCalls: seq<seq<(string, string)>>

    /** `__init__`: the card boots in user-interface mode. */
    constructor (device: SerialDevice, devInfo: map<string, string>, table: CodeTable, isNum: string -> bool)
      ensures this.device == device && this.devInfo == devInfo
      ensures this.table == table && this.isNum == isNum
      ensures currentMode == U && reportedMode == None && modeReads == [] && setCalls == []
    {
      this.device := device;
      this.devInfo := devInfo;
      this.table := table;
      this.isNum := isNum;
      currentMode := U;
      reportedMode := None;
      modeReads := [];
      setCalls := [];
    }

    /** `new_device`: opens the port, writes "U" and reads the reply. */
    static method NewDevice(port: string, input: seq<Event>, table: CodeTable, isNum: string -> bool)
      returns (r: Result<Gascard, Error>)
      ensures var h := Handshake(port, ReadSpec(input).0, LabelsOf(table, "U"));
        && (r.Success? <==> h.Success?)
        && (r.Failure? ==> r.error == h.error)
        && (r.Success? ==>
          && fresh(r.value) && fresh(r.value.device)
          && r.value.devInfo == h.value && r.value.table == table && r.value.isNum == isNum
          && r.value.currentMode == U && r.value.modeReads == [] && r.value.setCalls == []
          && r.value.device.port == port
          && r.value.device.sent == [Bytes("U") + EOL]
          && r.value.device.pending == ReadSpec(input).1
          && !r.value.device.isOpen && !r.value.device.closed)
    {
      if !("/dev/" <= port) {
        return Failure(UnboundLocalError("device"));
      }
      var dev := new SerialDevice(port, input);
      var _ := dev.Write("U");
      var raw := dev.Readline();
      if raw.Failure? {
        return Failure(raw.error);
      }
      if raw.value == "" {
        return Failure(ValueError("No device found on port"));
      }
      var toks := Tokens(raw.value);
      var info := Zip(LabelsOf(table, "U"), toks);
      if toks == [] {
        return Failure(IndexError);
      }
      if 'U' !in toks[0] {
        return Failure(ValueError("Gas Card Not in User Interface Mode"));
      }
      var g := new Gascard(dev, info, table, isNum);
      r := Success(g);
    }

    /** `_get_mode`: reads a line and reports the mode its first two
        characters name. As written it assigns `current_mode`, not the
        `_current_mode` cache. */
    method GetMode() returns (r: Result<string, Error>)
      modifies this, device
      ensures device.closed == old(device.closed) && (device.isOpen <==> ReadSpec(old(device.pending)).0 == Failure(TypeError))
      ensures r == ModeOfReply(ReadSpec(old(device.pending)).0)
      ensures device.pending == ReadSpec(old(device.pending)).1 && device.sent == old(device.sent)
      ensures currentMode == old(currentMode) && modeReads == old(modeReads) && setCalls == old(setCalls)
      ensures reportedMode == if r.Success? then Some(r.value) else old(reportedMode)
    {
      var ret := device.Readline();
      if ret.Failure? {
        return Failure(ret.error);
      }
      var mode := Strip(Take(ret.value, 2));
      if ParseMode(mode).Some? {
        reportedMode := Some(mode);
      } else {
        return Failure(ValueError("Invalid Mode"));
      }
      r := Success(mode);
    }

    /** `_get_mode` as evidently intended: the reported mode also becomes
        the `_current_mode` cache. */
    method GetModeTracked() returns (r: Result<string, Error>)
      modifies this, device
      ensures device.closed == old(device.closed) && (device.isOpen <==> ReadSpec(old(device.pending)).0 == Failure(TypeError))
      ensures r == ModeOfReply(ReadSpec(old(device.pending)).0)
      ensures device.pending == ReadSpec(old(device.pending)).1 && device.sent == old(device.sent)
      ensures r.Success? ==> Code(currentMode) == r.value && reportedMode == Some(r.value)
      ensures r.Failure? ==> currentMode == old(currentMode) && reportedMode == old(reportedMode)
      ensures modeReads == old(modeReads) && setCalls == old(setCalls)
    {
      var ret := device.Readline();
      if ret.Failure? {
        return Failure(ret.error);
      }
      var mode := Strip(Take(ret.value, 2));
      var parsed := ParseMode(mode);
      if parsed.None? {
        return Failure(ValueError("Invalid Mode"));
      }
      reportedMode := Some(mode);
      currentMode := parsed.value;
      r := Success(mode);
    }

    /** `_set_mode`: a mode outside `_MODES` is rejected with no write and no
        change; otherwise its code is written and becomes the cache. */
    method SetMode(mode: string) returns (r: Outcome<Error>)
      modifies this, device
      ensures device.closed == old(device.closed) && device.isOpen == old(device.isOpen)
      ensures ParseMode(mode).None? ==>
        r == Fail(ValueError("Invalid Mode")) && currentMode == old(currentMode) && device.sent == old(device.sent)
      ensures ParseMode(mode).Some? ==>
        r == Pass && currentMode == ParseMode(mode).value && device.sent == old(device.sent) + [Bytes(mode) + EOL]
      ensures device.pending == old(device.pending) && reportedMode == old(reportedMode) && modeReads == old(modeReads)
      ensures setCalls == old(setCalls)
    {
      var m := ParseMode(mode);
      if m.None? {
        return Fail(ValueError("Invalid Mode"));
      }
      assert IsAscii(Code(m.value));
      var _ := device.Write(mode);
      currentMode := m.value;
      r := Pass;
    }

    /** The seven mode readers `_get_val`, `_get_raw`, `_get_coeff`,
        `_get_environmental`, `_get_output`, `_get_settings` and
        `_get_userinterface`: switch to the mode only when the cache names
        another one, read a line and decode it. The cache names the mode
        afterwards even when the decoding fails. */
    method ReadMode(m: Mode) returns (r: Result<Record, Error>)
      requires m != D
      modifies this, device
      ensures device.closed == old(device.closed) && (device.isOpen <==> ReadSpec(old(device.pending)).0 == Failure(TypeError))
      ensures currentMode == m && reportedMode == old(reportedMode)
      ensures device.sent == old(device.sent) + (if old(currentMode) != m then [Bytes(Code(m)) + EOL] else [])
      ensures device.pending == ReadSpec(old(device.pending)).1
      ensures r == ModeReply(m, LabelsOf(table, Code(m)), isNum, ReadSpec(old(device.pending)).0)
      ensures modeReads == old(modeReads) + [Code(m)] && setCalls == old(setCalls)
    {
      if currentMode != m {
        var _ := SetMode(Code(m));
      }
      var ret := device.Readline();
      modeReads := modeReads + [Code(m)];
      r := Decode(m, ret);
    }

    /** The reader of mode `m` applied to the outcome of `_readline`. */
    method Decode(m: Mode, ret: Result<string, Error>) returns (r: Result<Record, Error>)
      requires m != D
      ensures r == ModeReply(m, LabelsOf(table, Code(m)), isNum, ret)
    {
      if ret.Failure? {
        return Failure(ret.error);
      }
      var df := Tokens(ret.value);
      var check := LeadCheck(m, df);
      if check.Some? {
        return Failure(check.value);
      }
      var vals := ConvertTokens(df, isNum);
      assert vals == ConvertedAll(df, isNum);
      if m == U {
        if |vals| < 3 {
          return Failure(IndexError);
        }
        if vals[2] !in ACCEPTED_GASES {
          return Failure(ValueError("Gas Not Accepted"));
        }
      }
      r := Success(Zip(LabelsOf(table, Code(m)), vals));
    }

    /** `get`: no names reads the whole normal-mode record. Otherwise every
        mode owning a requested name is read once, in an unspecified order
        (Python set iteration), and the record holds exactly the requested
        names the table knows; unknown names are ignored. */
    method Get(vals: seq<string>) returns (r: Result<Record, Error>, ghost visited: seq<string>)
      modifies this, device
      ensures device.closed == old(device.closed)
      ensures reportedMode == old(reportedMode) && setCalls == old(setCalls)
      ensures vals == [] ==>
        && visited == ["N"] && currentMode == N && modeReads == old(modeReads) + ["N"]
        && r == ModeReply(N, LabelsOf(table, "N"), isNum, ReadSpec(old(device.pending)).0)
        && device.sent == old(device.sent) + (if old(currentMode) != N then [Bytes("N") + EOL] else [])
        && device.pending == ReadSpec(old(device.pending)).1
      ensures vals != [] ==>
        var run := GetRun(visited, GetPairs(vals, table), table, isNum, old(currentMode), old(device.pending));
        && r == run.result && modeReads == old(modeReads) + run.readCodes
        && device.sent == old(device.sent) + run.sent && device.pending == run.pending && currentMode == run.mode
      ensures vals != [] ==>
        && (forall i, j | 0 <= i < j < |visited| :: visited[i] != visited[j])
        && (forall i | 0 <= i < |visited| :: visited[i] in OwningModes(vals, table))
        && (r.Success? ==> (set k | k in visited) == OwningModes(vals, table))
        && (r.Success? ==> r.value.Keys == KnownNames(vals, table))
      ensures r == GetReply(vals, table, isNum, visited, old(currentMode), old(device.pending))
      ensures GetOrder(vals, table, visited, r)
      ensures (currentMode, device.pending) == GetLeaves(vals, table, isNum, visited, old(currentMode), old(device.pending))
    {
      if vals == [] {
        r := ReadMode(N);
        visited := ["N"];
        return;
      }
      var hits := CollectHits(vals, table);
      ModesListExactly(vals, table);
      assert ModesList(vals, table, hits) == GetPairs(vals, table);
      r, visited := ReadGroups(ModesList(vals, table, hits));
    }

    /** The second half of `get`: each distinct mode of the `(mode, name)`
        pairs is read once and its names are taken from its record; a mode
        without a reader, a failed read or a missing name stops the request. */
    method ReadGroups(modes: seq<(string, string)>) returns (r: Result<Record, Error>, ghost visited: seq<string>)
      modifies this, device
      ensures device.closed == old(device.closed)
      ensures var run := GetRun(visited, modes, table, isNum, old(currentMode), old(device.pending));
        && r == run.result && modeReads == old(modeReads) + run.readCodes
        && device.sent == old(device.sent) + run.sent && device.pending == run.pending && currentMode == run.mode
      ensures reportedMode == old(reportedMode) && setCalls == old(setCalls)
      ensures forall i, j | 0 <= i < j < |visited| :: visited[i] != visited[j]
      ensures forall i | 0 <= i < |visited| :: visited[i] in PairModes(modes)
      ensures r.Success? ==> (set k | k in visited) == PairModes(modes)
      ensures r.Success? ==> r.value.Keys == PairNames(modes)
    {
      ghost var cur0, pending0, sent0, reads0 := currentMode, device.pending, device.sent, modeReads;
      ghost var run := GetRun([], modes, table, isNum, cur0, pending0);
      var unique := PairModes(modes);
      var output: Record := map[];
      var remaining := unique;
      visited := [];
      while remaining != {}
        invariant remaining <= unique
        invariant forall i, j | 0 <= i < j < |visited| :: visited[i] != visited[j]
        invariant forall k :: k in visited <==> k in unique && k !in remaining
        invariant output.Keys == Collected(modes, visited)
        invariant run == GetRun(visited, modes, table, isNum, cur0, pending0)
        invariant GetTracks(run, output, reads0, sent0, modeReads, device.sent, device.pending, currentMode)
        invariant reportedMode == old(reportedMode) && setCalls == old(setCalls)
        invariant device.closed == old(device.closed)
        decreases remaining
      {
        var mode :| mode in remaining;
        VisitOne(visited, remaining, mode, unique);
        remaining := remaining - {mode};
        ghost var readsMid, sentMid, pendingMid, modeMid := modeReads, device.sent, device.pending, currentMode;
        var out := ReadOne(mode, modes);
        GetTracksExtend(run, output, mode, modes, table, isNum, reads0, sent0, readsMid, sentMid, pendingMid, modeMid,
                        out, modeReads, device.sent, device.pending, currentMode);
        GetRunSnocThen(visited, mode, modes, table, isNum, cur0, pending0);
        run := GetThen(run, mode, modes, table, isNum);
        CollectedStep(modes, visited, mode);
        visited := visited + [mode];
        if out.Failure? {
          r := out;
          return;
        }
        output := output + out.value;
      }
      assert forall i | 0 <= i < |modes| :: modes[i].0 in visited by {
        forall i | 0 <= i < |modes| ensures modes[i].0 in visited {
          assert modes[i].0 in unique;
        }
      }
      CollectedAll(modes, visited);
      r := Success(output);
    }

    /** One mode of `get`: its reader, then the names wanted from it. */
    method ReadOne(k: string, modes: seq<(string, string)>) returns (out: Result<Record, Error>)
      modifies this, device
      ensures device.closed == old(device.closed)
      ensures var step := ReadStep(k, modes, table, isNum, old(currentMode), old(device.pending));
        && out == step.result && modeReads == old(modeReads) + step.readCodes
        && device.sent == old(device.sent) + step.sent && device.pending == step.pending && currentMode == step.mode
      ensures out.Success? ==> out.value.Keys == NamesFor(modes, k)
      ensures reportedMode == old(reportedMode) && setCalls == old(setCalls)
    {
      var reader := ReaderFor(k);
      if reader.None? {
        return Failure(KeyError(k));
      }
      var ret := ReadMode(reader.value);
      if ret.Failure? {
        return Failure(ret.error);
      }
      var names := NamesList(modes, k);
      var missing := FirstMissing(names, ret.value);
      if missing.Some? {
        return Failure(KeyError(missing.value));
      }
      out := Success(Pick(names, ret.value));
    }

    /** The effect of `set` on the card, relative to the state it started in. */
    twostate predicate SetDone(params: seq<(string, string)>, new r: Outcome<Error>, new visited: seq<string>)
      reads this, device
    {
      && setCalls == old(setCalls) + [params]
      && device.pending == old(device.pending)
      && modeReads == old(modeReads)
      && reportedMode == old(reportedMode)
      && (SetPlan(params, table).Failure? ==>
        && r == Fail(SetPlan(params, table).error) && visited == []
        && device.sent == old(device.sent) && currentMode == old(currentMode))
      && (SetPlan(params, table).Success? ==>
        var plan := SetPlan(params, table).value;
        var run := SetRun(visited, plan, old(currentMode));
        && (forall i | 0 <= i < |run.sent| :: IsAscii(run.sent[i]))
        && r == run.result
        && device.sent == old(device.sent) + FramesOf(run.sent)
        && currentMode == run.mode
        && (forall i, j | 0 <= i < j < |visited| :: visited[i] != visited[j])
        && (forall i | 0 <= i < |visited| :: visited[i] in Modes(plan))
        && (r == Pass ==> (set k | k in visited) == Modes(plan)))
    }

    /** `set`: never reads; visits each mode of the planned writes once, in an
        unspecified order, switching mode only when the cache names another,
        and writes `code + value` for each planned field of that mode. */
    method Set(params: seq<(string, string)>) returns (r: Outcome<Error>, ghost visited: seq<string>)
      modifies this, device
      ensures device.closed == old(device.closed) && device.isOpen == old(device.isOpen)
      ensures SetDone(params, r, visited)
      ensures SetAnswer(params, table, r)
    {
      setCalls := setCalls + [params];
      var plan := BuildPlan(params);
      if plan.Failure? {
        r, visited := Fail(plan.error), [];
        return;
      }
      ghost var cur0 := currentMode;
      r, visited := RunPlan(plan.value);
      SetRunAnswers(params, table, visited, cur0);
    }

    /** The first half of `set`: the writes `code + value` planned for the
        requested names the table knows, or `IndexError` for a label with no
        code beside it. Nothing is sent. */
    method BuildPlan(params: seq<(string, string)>) returns (res: Result<seq<Assign>, Error>)
      ensures res == SetPlan(params, table)
    {
      var hits := CollectHits(Keys(params), table);
      HitsExactly(Keys(params), table, |params|);
      var plan: seq<Assign> := [];
      for i := 0 to |hits|
        invariant |plan| == i
        invariant forall j | 0 <= j < i :: HasCode(table, hits[j])
        invariant forall j | 0 <= j < i ::
          plan[j] == Assign(table[hits[j].entry].mode, table[hits[j].entry].codes[hits[j].index], params[hits[j].req].1)
      {
        var h := hits[i];
        assert h in hits;
        if h.index >= |table[h.entry].codes| {
          assert !HasCode(table, hits[i]);
          return Failure(IndexError);
        }
        plan := plan + [Assign(table[h.entry].mode, table[h.entry].codes[h.index], params[h.req].1)];
      }
      assert |Keys(params)| == |params|;
      assert !exists i | 0 <= i < |hits| :: !HasCode(table, hits[i]);
      assert hits == Hits(Keys(params), table, |params|);
      ghost var planned := seq(|hits|, i requires 0 <= i < |hits| =>
        Assign(table[hits[i].entry].mode, table[hits[i].entry].codes[hits[i].index], params[hits[i].req].1));
      assert SetPlan(params, table) == Success(planned);
      assert plan == planned;
      res := Success(plan);
    }

    /** `zero`: sets the zero-gas correction factor to the empty value. */
    method Zero() returns (r: Outcome<Error>, ghost visited: seq<string>)
      modifies this, device
      ensures device.closed == old(device.closed) && device.isOpen == old(device.isOpen)
      ensures SetDone([("Zero_Gas_Corr_Factor", "")], r, visited)
      ensures SetAnswer([("Zero_Gas_Corr_Factor", "")], table, r)
    {
      r, visited := Set([("Zero_Gas_Corr_Factor", "")]);
    }

    /** `span`: sets the span-gas correction factor to `value`. */
    method Span(value: string) returns (r: Outcome<Error>, ghost visited: seq<string>)
      modifies this, device
      ensures device.closed == old(device.closed) && device.isOpen == old(device.isOpen)
      ensures SetDone([("Span_Gas_Corr_Factor", value)], r, visited)
      ensures SetAnswer([("Span_Gas_Corr_Factor", value)], table, r)
    {
      r, visited := Set([("Span_Gas_Corr_Factor", value)]);
    }

    /** `time_const`: sets the time constant to `value`. */
    method TimeConst(value: string) returns (r: Outcome<Error>, ghost visited: seq<string>)
      modifies this, device
      ensures device.closed == old(device.closed) && device.isOpen == old(device.isOpen)
      ensures SetDone([("Time_Constant", value)], r, visited)
      ensures SetAnswer([("Time_Constant", value)], table, r)
    {
      r, visited := Set([("Time_Constant", value)]);
    }

    /** The second half of `set`: each distinct mode of the plan in turn. */
    method RunPlan(plan: seq<Assign>) returns (r: Outcome<Error>, ghost visited: seq<string>)
      modifies this, device
      ensures device.closed == old(device.closed) && device.isOpen == old(device.isOpen)
      ensures var run := SetRun(visited, plan, old(currentMode));
        && (forall i | 0 <= i < |run.sent| :: IsAscii(run.sent[i]))
        && r == run.result
        && device.sent == old(device.sent) + FramesOf(run.sent)
        && currentMode == run.mode
      ensures forall i, j | 0 <= i < j < |visited| :: visited[i] != visited[j]
      ensures forall i | 0 <= i < |visited| :: visited[i] in Modes(plan)
      ensures r == Pass ==> (set k | k in visited) == Modes(plan)
      ensures device.pending == old(device.pending) && modeReads == old(modeReads)
      ensures reportedMode == old(reportedMode) && setCalls == old(setCalls)
    {
      ghost var cur0 := currentMode;
      ghost var sent0 := device.sent;
      ghost var run := SetRun([], plan, cur0);
      visited := [];
      var remaining := Modes(plan);
      while remaining != {}
        invariant remaining <= Modes(plan)
        invariant forall i, j | 0 <= i < j < |visited| :: visited[i] != visited[j]
        invariant forall k :: k in visited <==> k in Modes(plan) && k !in remaining
        invariant run == SetRun(visited, plan, cur0)
        invariant Tracks(run, sent0, currentMode, device.sent)
        invariant device.pending == old(device.pending) && modeReads == old(modeReads)
        invariant reportedMode == old(reportedMode) && setCalls == old(setCalls)
        invariant device.closed == old(device.closed) && device.isOpen == old(device.isOpen)
        decreases remaining
      {
        var mode :| mode in remaining;
        VisitOne(visited, remaining, mode, Modes(plan));
        remaining := remaining - {mode};
        ghost var modeMid, sentMid := currentMode, device.sent;
        r := RunMode(mode, plan);
        TracksExtend(run, mode, plan, sent0, modeMid, sentMid, r, currentMode, device.sent);
        SetRunSnocThen(visited, mode, plan, cur0);
        run := Then(run, mode, plan);
        visited := visited + [mode];
        if r.Fail? {
          return;
        }
      }
      r := Pass;
    }

    /** One mode of `set`: switch to it if the cache names another mode, then
        write each of its planned commands. */
    method RunMode(mode: string, plan: seq<Assign>) returns (r: Outcome<Error>)
      modifies this, device
      ensures device.closed == old(device.closed) && device.isOpen == old(device.isOpen)
      ensures var step := SetStep(old(currentMode), mode, plan);
        && (forall i | 0 <= i < |step.sent| :: IsAscii(step.sent[i]))
        && r == step.result
        && device.sent == old(device.sent) + FramesOf(step.sent)
        && currentMode == step.mode
      ensures device.pending == old(device.pending) && modeReads == old(modeReads)
      ensures reportedMode == old(reportedMode) && setCalls == old(setCalls)
    {
      ghost var step := SetStep(currentMode, mode, plan);
      var switched: seq<string> := [];
      if Code(currentMode) != mode {
        r := SetMode(mode);
        if r.Fail? {
          return;
        }
        switched := [mode];
      }
      var cmds := CommandsFor(plan, mode);
      ghost var w := WriteRun(cmds);
      assert step == SetState(w.0, switched + w.1, w.1, step.mode);
      r := WriteAll(device, cmds);
      FramesOfAppend(switched, w.1);
    }

    /** `_write` of each command in turn, stopping at the first that cannot
        be encoded. */
    static method WriteAll(dev: SerialDevice, cmds: seq<string>) returns (r: Outcome<Error>)
      modifies dev
      ensures dev.closed == old(dev.closed) && dev.isOpen == old(dev.isOpen)
      ensures r == WriteRun(cmds).0
      ensures forall i | 0 <= i < |WriteRun(cmds).1| :: IsAscii(WriteRun(cmds).1[i])
      ensures dev.sent == old(dev.sent) + FramesOf(WriteRun(cmds).1)
      ensures dev.pending == old(dev.pending)
    {
      var j := 0;
      while j < |cmds|
        invariant 0 <= j <= |cmds|
        invariant WriteRun(cmds[..j]) == (Pass, cmds[..j])
        invariant forall t | 0 <= t < j :: IsAscii(cmds[t])
        invariant dev.sent == old(dev.sent) + FramesOf(cmds[..j])
        invariant dev.pending == old(dev.pending)
        invariant dev.closed == old(dev.closed) && dev.isOpen == old(dev.isOpen)
      {
        assert cmds[..j + 1][..j] == cmds[..j];
        r := dev.Write(cmds[j]);
        if r.Fail? {
          WriteRunStops(cmds, j + 1);
          return;
        }
        FramesOfAppend(cmds[..j], [cmds[j]]);
        assert cmds[..j] + [cmds[j]] == cmds[..j + 1];
        j := j + 1;
      }
      assert cmds[..j] == cmds;
      r := Pass;
    }
  }
}
