/** The device registry of pygascard/daq.py: the module-global `dev_list`
    and the `DAQ` front end that adds, removes and fans requests out to the
    registered cards one after the other. */
module Daq {
  import opened Wrappers
  import opened Text
  import opened Comm
  import opened Records
  import opened Device

  /** The names of `s` that are in `keys`, in their order in `s`. */
  function Keep(s: seq<string>, keys: set<string>): seq<string> {
    if s == [] then [] else (if s[0] in keys then [s[0]] else []) + Keep(s[1..], keys)
  }

  /** Keeping names keeps exactly the names that are kept. */
  lemma {:induction false} KeepMembers(s: seq<string>, keys: set<string>)
    ensures forall x :: x in Keep(s, keys) <==> x in s && x in keys
    decreases |s|
  {
    if s != [] {
      KeepMembers(s[1..], keys);
      assert forall x :: x in s <==> x == s[0] || x in s[1..];
    }
  }

  lemma {:induction false} KeepAppend(a: seq<string>, b: seq<string>, keys: set<string>)
    ensures Keep(a + b, keys) == Keep(a, keys) + Keep(b, keys)
    decreases |a|
  {
    if a != [] {
      assert (a + b)[0] == a[0] && (a + b)[1..] == a[1..] + b;
      KeepAppend(a[1..], b, keys);
      var head := if a[0] in keys then [a[0]] else [];
      assert Keep(a + b, keys) == head + (Keep(a[1..], keys) + Keep(b, keys));
    } else {
      assert a + b == b;
    }
  }

  lemma {:induction false} KeepAll(s: seq<string>, keys: set<string>)
    requires forall i | 0 <= i < |s| :: s[i] in keys
    ensures Keep(s, keys) == s
    decreases |s|
  {
    if s != [] {
      KeepAll(s[1..], keys);
    }
  }

  /** Keeping fewer names from what was kept is keeping them directly. */
  lemma {:induction false} KeepNested(s: seq<string>, outer: set<string>, inner: set<string>)
    requires inner <= outer
    ensures Keep(Keep(s, outer), inner) == Keep(s, inner)
    decreases |s|
  {
    if s != [] {
      KeepNested(s[1..], outer, inner);
      var head := if s[0] in outer then [s[0]] else [];
      KeepAppend(head, Keep(s[1..], outer), inner);
    }
  }

  /** Removing the name at `i` from a list of distinct names keeps the
      others in order. */
  lemma KeepRemoves(s: seq<string>, i: nat, keys: set<string>)
    requires i < |s| && (forall a, b | 0 <= a < b < |s| :: s[a] != s[b])
    requires forall j | 0 <= j < |s| :: s[j] in keys
    ensures Keep(s, keys - {s[i]}) == s[..i] + s[i + 1..]
  {
    var x, pre, post, rest := s[i], s[..i], s[i + 1..], keys - {s[i]};
    assert s == pre + [x] + post;
    OthersKept(s, i, keys, pre, post);
    KeepAll(pre, rest);
    KeepAll(post, rest);
    assert Keep([x], rest) == [] + Keep([], rest);
    KeepAppend(pre, [x], rest);
    KeepAppend(pre + [x], post, rest);
  }

  /** In a list of distinct names, the names before and after position `i`
      are all other than the one at `i`. */
  lemma OthersKept(s: seq<string>, i: nat, keys: set<string>, pre: seq<string>, post: seq<string>)
    requires i < |s| && (forall a, b | 0 <= a < b < |s| :: s[a] != s[b])
    requires forall j | 0 <= j < |s| :: s[j] in keys
    requires pre == s[..i] && post == s[i + 1..]
    ensures forall j | 0 <= j < |pre| :: pre[j] in keys - {s[i]}
    ensures forall j | 0 <= j < |post| :: post[j] in keys - {s[i]}
  {
    forall j | 0 <= j < |pre| ensures pre[j] in keys - {s[i]} {
      assert pre[j] == s[j];
    }
    forall j | 0 <= j < |post| ensures post[j] in keys - {s[i]} {
      assert post[j] == s[i + 1 + j];
    }
  }

  /** Deleting the name at `i` from distinct names listing `keys` leaves
      distinct names listing the other keys, in their order. */
  lemma DeleteKeeps(names: seq<string>, keys: set<string>, i: nat)
    requires i < |names| && (forall a, b | 0 <= a < b < |names| :: names[a] != names[b])
    requires forall n :: n in names <==> n in keys
    ensures var rest := names[..i] + names[i + 1..];
      && rest == Keep(names, keys - {names[i]})
      && (forall a, b | 0 <= a < b < |rest| :: rest[a] != rest[b])
      && (forall n :: n in rest <==> n in keys - {names[i]})
  {
    KeepRemoves(names, i, keys);
    KeepMembers(names, keys - {names[i]});
    DropDistinct(names, i);
  }

  lemma DropDistinct(names: seq<string>, i: nat)
    requires i < |names| && (forall a, b | 0 <= a < b < |names| :: names[a] != names[b])
    ensures var rest := names[..i] + names[i + 1..]; forall a, b | 0 <= a < b < |rest| :: rest[a] != rest[b]
  {
    var rest := names[..i] + names[i + 1..];
    assert forall a | 0 <= a < |rest| :: rest[a] == names[if a < i then a else a + 1];
  }

  /** The module-global `dev_list`: the registered names in insertion order
      and the card under each. */
  class Registry {
    var names: seq<string>
    var devices: map<string, Gascard>

    ghost predicate Valid()
      reads this
    {
      && (forall i, j | 0 <= i < j < |names| :: names[i] != names[j])
      && (forall n :: n in names <==> n in devices)
    }

    /** The registered cards and their transports. */
    ghost function Footprint(): set<object>
      reads this
    {
      (set n | n in devices :: devices[n] as object) + (set n | n in devices :: devices[n].device as object)
    }

    constructor ()
      ensures Valid() && names == [] && devices == map[]
    {
      names := [];
      devices := map[];
    }

    /** `dev_list.update({name: card})`: a new name goes last, an existing
        one keeps its place and gets the new card. */
    method Put(name: string, card: Gascard)
      requires Valid()
      modifies this
      ensures Valid()
      ensures devices == old(devices)[name := card]
      ensures names == if name in old(devices) then old(names) else old(names) + [name]
    {
      if name !in devices {
        names := names + [name];
      }
      devices := devices[name := card];
    }

    /** `del dev_list[name]`. */
    method Delete(name: string)
      requires Valid() && name in devices
      modifies this
      ensures Valid()
      ensures devices == old(devices) - {name}
      ensures forall n :: n in names <==> n in old(names) && n != name
      ensures names == Keep(old(names), old(devices).Keys - {name})
    {
      var i :| 0 <= i < |names| && names[i] == name;
      DeleteKeeps(names, devices.Keys, i);
      names := names[..i] + names[i + 1..];
      devices := devices - {name};
    }
  }

  /** A card's record for a `get` of `vals`: the card is registered and,
      for a non-empty request, the record holds exactly the requested names
      its table knows. */
  ghost predicate Answers(devices: map<string, Gascard>, vals: seq<string>, t: string, rec: Record) {
    t in devices && (vals != [] ==> rec.Keys == KnownNames(vals, devices[t].table))
  }

  /** A string argument or a list argument, as `get`, `set` and the
      broadcast wrappers accept for their ids and values. */
  datatype Arg = Text(text: string) | List(items: seq<string>)

  /** `not id`. */
  predicate Blank(a: Arg) {
    match a
    case Text(s) => s == ""
    case List(l) => l == []
  }

  /** `id.split()` for a string, the list itself otherwise. */
  function Items(a: Arg): seq<string> {
    match a
    case Text(s) => Split(s)
    case List(l) => l
  }

  /** The names a fan-out visits, in order: every registered card when `id`
      is blank, then the listed ids. */
  function Targets(id: Arg, names: seq<string>): seq<string> {
    (if Blank(id) then names else []) + Items(id)
  }

  /** A blank id targets every registered card in registration order;
      otherwise exactly the listed ids, a string being split on whitespace. */
  lemma TargetsExactly(id: Arg, names: seq<string>)
    ensures Blank(id) ==> Targets(id, names) == names
    ensures !Blank(id) ==> Targets(id, names) == Items(id)
    ensures id.Text? && !Blank(id) ==> Concat(Targets(id, names)) == NonSpace(id.text)
  {
    if id.Text? {
      SplitKeepsText(id.text);
      if id.text == "" {
        assert Split(id.text) == [];
      }
    }
  }

  /** The names `get` asks each card for: a string is one name. */
  function Request(val: Arg): seq<string> {
    match val
    case Text(s) => [s]
    case List(l) => l
  }

  /** One entry of `add_device`: a port to open or a card to store. */
  datatype Entry = Port(port: string) | Card(card: Gascard)

  /** The `devs` argument of `add_device`: a "Name Port" string or a map. */
  datatype Devs = Line(line: string) | Entries(entries: seq<(string, Entry)>)

  /** The entries `add_device` goes through: nothing for a blank argument,
      the first two words of a string as name and port (IndexError when there
      are fewer), the map's entries otherwise. */
  function AddPlan(devs: Devs): Result<seq<(string, Entry)>, Error> {
    match devs
    case Line(s) =>
      if s == "" then Success([])
      else
        var words := Split(s);
        if |words| < 2 then Failure(IndexError) else Success([(words[0], Port(words[1]))])
    case Entries(es) => Success(es)
  }

  /** A "Name Port" line names one card on that port. */
  lemma AddPlanLine(name: string, port: string)
    requires IsToken(name) && IsToken(port)
    ensures AddPlan(Line(JoinSpaced([name, port]))) == Success([(name, Port(port))])
  {
    SplitJoinRoundTrip([name, port]);
    assert [name, port][1..] == [port];
    assert JoinSpaced([name, port]) == name + " " + port;
  }

  /** The handshake a port entry goes through. */
  function HandshakeOf(port: string, world: string -> seq<Event>, table: CodeTable): Result<map<string, string>, Error> {
    Handshake(port, ReadSpec(world(port)).0, LabelsOf(table, "U"))
  }

  predicate Admits(e: Entry, world: string -> seq<Event>, table: CodeTable) {
    e.Card? || HandshakeOf(e.port, world, table).Success?
  }

  /** The position of the first entry whose handshake fails (or the count). */
  function FirstRejected(es: seq<(string, Entry)>, world: string -> seq<Event>, table: CodeTable): (k: nat)
    ensures k <= |es|
    ensures forall j | 0 <= j < k :: Admits(es[j].1, world, table)
    ensures k < |es| ==> !Admits(es[k].1, world, table)
  {
    if es == [] then 0
    else if !Admits(es[0].1, world, table) then 0
    else 1 + FirstRejected(es[1..], world, table)
  }

  /** The first rejected entry is the only index meeting its two conditions. */
  lemma {:induction false} FirstRejectedUnique(es: seq<(string, Entry)>, world: string -> seq<Event>, table: CodeTable, i: nat)
    requires i <= |es|
    requires forall j | 0 <= j < i :: Admits(es[j].1, world, table)
    requires i < |es| ==> !Admits(es[i].1, world, table)
    ensures FirstRejected(es, world, table) == i
    decreases i
  {
    if i > 0 {
      assert Admits(es[0].1, world, table);
      assert forall j | 0 <= j < i - 1 :: es[1..][j] == es[j + 1];
      FirstRejectedUnique(es[1..], world, table, i - 1);
    }
  }

  function Names(es: seq<(string, Entry)>): set<string> {
    set i | 0 <= i < |es| :: es[i].0
  }

  lemma NamesStep(es: seq<(string, Entry)>, i: nat)
    requires i < |es|
    requires forall a, b | 0 <= a < b < |es| :: es[a].0 != es[b].0
    ensures Names(es[..i + 1]) == Names(es[..i]) + {es[i].0}
    ensures es[i].0 !in Names(es[..i])
  {
    assert es[..i + 1] == es[..i] + [es[i]];
  }

  /** No name is listed twice. */
  predicate Distinct(ns: seq<string>) {
    forall a, b | 0 <= a < b < |ns| :: ns[a] != ns[b]
  }

  /** The names `add_device` appends to `dev_list` for the first `i`
      entries of `es`: those not already in `known`, in entry order. */
  function NewNames(es: seq<(string, Entry)>, i: nat, known: set<string>): seq<string>
    requires i <= |es|
  {
    if i == 0 then [] else NewNames(es, i - 1, known) + (if es[i - 1].0 in known then [] else [es[i - 1].0])
  }

  /** The appended names are exactly the entry names not known before,
      each once. */
  lemma {:induction false} NewNamesExactly(es: seq<(string, Entry)>, i: nat, known: set<string>)
    requires i <= |es|
    requires forall a, b | 0 <= a < b < |es| :: es[a].0 != es[b].0
    ensures forall x :: x in NewNames(es, i, known) <==> x in Names(es[..i]) && x !in known
    ensures Distinct(NewNames(es, i, known))
  {
    if i > 0 {
      NewNamesExactly(es, i - 1, known);
      NamesStep(es, i - 1);
      var prev := NewNames(es, i - 1, known);
      assert es[i - 1].0 !in prev;
      var ns := NewNames(es, i, known);
      assert ns == prev + (if es[i - 1].0 in known then [] else [es[i - 1].0]);
      forall a, b | 0 <= a < b < |ns| ensures ns[a] != ns[b] {
        if b >= |prev| {
          assert ns[b] == es[i - 1].0 && ns[a] == prev[a];
        } else {
          assert ns[a] == prev[a] && ns[b] == prev[b];
        }
      }
    }
  }

  /** `names` is `names0` followed by the names the first `i` entries of
      `es` appended over the registered names `known`. */
  predicate ListedAfter(names: seq<string>, names0: seq<string>, es: seq<(string, Entry)>, i: nat, known: set<string>)
    requires i <= |es|
  {
    names == names0 + NewNames(es, i, known)
  }

  /** One more entry appends its name exactly when the registry did not
      hold it. */
  lemma NewNamesStep(es: seq<(string, Entry)>, i: nat, known: set<string>, keys: set<string>)
    requires i < |es|
    requires forall a, b | 0 <= a < b < |es| :: es[a].0 != es[b].0
    requires keys == known + Names(es[..i])
    ensures NewNames(es, i + 1, known) == NewNames(es, i, known) + (if es[i].0 in keys then [] else [es[i].0])
  {
    NamesStep(es, i);
  }

  /** The entry's name is registered and holds what the entry installs. */
  ghost predicate InstalledAt(devices: map<string, Gascard>, e: (string, Entry), world: string -> seq<Event>, table: CodeTable,
                              isNum: string -> bool)
  {
    e.0 in devices && Installed(e.1, devices[e.0], world, table, isNum)
  }

  /** The registry after the first `i` entries of `es` were stored over
      `devices0`: their names added, every other card kept, each stored entry
      installed. */
  ghost predicate AddedUpTo(devices: map<string, Gascard>, devices0: map<string, Gascard>, es: seq<(string, Entry)>, i: nat,
                            world: string -> seq<Event>, table: CodeTable, isNum: string -> bool)
    requires i <= |es|
  {
    && devices.Keys == devices0.Keys + Names(es[..i])
    && (forall n | n in devices0 && n !in Names(es[..i]) :: devices[n] == devices0[n])
    && (forall j | 0 <= j < i :: InstalledAt(devices, es[j], world, table, isNum))
  }

  /** Storing the next entry's card extends what has been stored. */
  lemma AddedStep(devices: map<string, Gascard>, devices0: map<string, Gascard>, es: seq<(string, Entry)>, i: nat,
                  card: Gascard, world: string -> seq<Event>, table: CodeTable, isNum: string -> bool)
    requires i < |es|
    requires forall a, b | 0 <= a < b < |es| :: es[a].0 != es[b].0
    requires AddedUpTo(devices, devices0, es, i, world, table, isNum)
    requires Installed(es[i].1, card, world, table, isNum)
    ensures AddedUpTo(devices[es[i].0 := card], devices0, es, i + 1, world, table, isNum)
  {
    NamesStep(es, i);
    var next := devices[es[i].0 := card];
    forall j | 0 <= j < i + 1 ensures InstalledAt(next, es[j], world, table, isNum) {
      if j < i {
        assert es[j].0 != es[i].0;
        assert InstalledAt(devices, es[j], world, table, isNum);
      }
    }
  }

  /** What an admitted entry leaves under its name: the given card, or a
      card on the entry's port with the handshake's device info, the given
      code table and number test. */
  ghost predicate Installed(e: Entry, card: Gascard, world: string -> seq<Event>, table: CodeTable, isNum: string -> bool) {
    match e
    case Card(c) => card == c
    case Port(p) =>
      && HandshakeOf(p, world, table).Success?
      && card.devInfo == HandshakeOf(p, world, table).value
      && card.table == table && card.isNum == isNum
      && card.device.port == p
  }

  /** The state a port entry's new card is stored in: the mode cache in
      user-interface mode, no mode read and no `set` logged, and a transport
      that has sent the "U" request and holds the input left after its
      reply. */
  ghost predicate Pristine(e: Entry, card: Gascard, world: string -> seq<Event>)
    reads card, card.device
  {
    e.Port? ==> card.device.port == e.port && Unused(card, world)
  }

  /** A card as the handshake on its port leaves it. */
  ghost predicate Unused(card: Gascard, world: string -> seq<Event>)
    reads card, card.device
  {
    && card.currentMode == U && card.modeReads == [] && card.setCalls == []
    && card.device.sent == [Bytes("U") + EOL] && card.device.pending == ReadSpec(world(card.device.port)).1
  }

  /** Every card in `made` is as its handshake left it. */
  ghost predicate AllUnused(made: set<Gascard>, world: string -> seq<Event>)
    reads made, (set c | c in made :: c.device)
  {
    forall c | c in made :: Unused(c, world)
  }

  /** Port cards that are all among the unused cards `made` are pristine. */
  lemma PristineFromMade(devices: map<string, Gascard>, es: seq<(string, Entry)>, i: nat, made: set<Gascard>,
                         world: string -> seq<Event>, table: CodeTable, isNum: string -> bool)
    requires i <= |es|
    requires forall j | 0 <= j < i :: InstalledAt(devices, es[j], world, table, isNum)
    requires OpenedBy(devices, es, i, made) && AllUnused(made, world)
    ensures PortsPristine(devices, es, i, world)
  {
    forall j | 0 <= j < i && es[j].0 in devices ensures Pristine(es[j].1, devices[es[j].0], world) {
      assert InstalledAt(devices, es[j], world, table, isNum);
    }
  }

  /** The cards stored for the port entries among the first `i` entries
      are still in the state they were stored in. */
  ghost predicate PortsPristine(devices: map<string, Gascard>, es: seq<(string, Entry)>, i: nat, world: string -> seq<Event>)
    requires i <= |es|
    reads devices.Values, (set c | c in devices.Values :: c.device)
  {
    forall j | 0 <= j < i && es[j].0 in devices :: Pristine(es[j].1, devices[es[j].0], world)
  }

  /** The cards stored for the port entries among the first `i` entries
      were opened during the call. */
  twostate predicate FreshPorts(new devices: map<string, Gascard>, es: seq<(string, Entry)>, i: nat)
    requires i <= |es|
  {
    forall j | 0 <= j < i && es[j].1.Port? && es[j].0 in devices :: fresh(devices[es[j].0])
  }

  /** The cards stored for the port entries among the first `i` entries
      are among `made`. */
  ghost predicate OpenedBy(devices: map<string, Gascard>, es: seq<(string, Entry)>, i: nat, made: set<Gascard>)
    requires i <= |es|
  {
    forall j | 0 <= j < i && es[j].1.Port? && es[j].0 in devices :: devices[es[j].0] in made
  }

  /** The card an entry opens: the stored card for a port entry. */
  function Made(e: Entry, card: Gascard): set<Gascard> {
    if e.Port? then {card} else {}
  }

  /** Storing the next entry's card adds the card it opened, if any. */
  lemma OpenedStep(devices: map<string, Gascard>, es: seq<(string, Entry)>, i: nat, made: set<Gascard>, card: Gascard)
    requires i < |es| && forall a, b | 0 <= a < b < |es| :: es[a].0 != es[b].0
    requires OpenedBy(devices, es, i, made)
    ensures OpenedBy(devices[es[i].0 := card], es, i + 1, made + Made(es[i].1, card))
  {
    var next := devices[es[i].0 := card];
    forall j | 0 <= j < i + 1 && es[j].1.Port? && es[j].0 in next
      ensures next[es[j].0] in made + Made(es[i].1, card)
    {
      if j < i {
        assert es[j].0 != es[i].0;
      }
    }
  }

  /** `remove_device` over the registered names `keys`: the names left, and
      the KeyError that stops it at the first absent name. */
  function RemoveRun(ns: seq<string>, keys: set<string>): (Outcome<Error>, set<string>) {
    if ns == [] then (Pass, keys)
    else if ns[0] !in keys then (Fail(KeyError(ns[0])), keys)
    else RemoveRun(ns[1..], keys - {ns[0]})
  }

  /** Every name of `ns` is registered in `keys` and listed once. */
  predicate RemovableAll(ns: seq<string>, keys: set<string>) {
    (forall i | 0 <= i < |ns| :: ns[i] in keys) && (forall i, j | 0 <= i < j < |ns| :: ns[i] != ns[j])
  }

  /** A non-empty list is removable exactly when its head is registered and
      its tail is removable from the names left once the head is gone. */
  lemma RemovableCons(ns: seq<string>, keys: set<string>)
    requires ns != []
    ensures RemovableAll(ns, keys) <==> ns[0] in keys && RemovableAll(ns[1..], keys - {ns[0]})
  {
    var rest := ns[1..];
    assert forall i | 0 <= i < |rest| :: rest[i] == ns[i + 1];
    if ns[0] in keys && RemovableAll(rest, keys - {ns[0]}) {
      forall i, j | 0 <= i < j < |ns| ensures ns[i] != ns[j] {
        if i == 0 {
          assert ns[j] == rest[j - 1];
        } else {
          assert ns[i] == rest[i - 1] && ns[j] == rest[j - 1];
        }
      }
    }
    if RemovableAll(ns, keys) {
      forall i | 0 <= i < |rest| ensures rest[i] in keys - {ns[0]} {
        assert ns[0] != ns[i + 1];
      }
    }
  }

  /** Removal succeeds exactly when the names are registered and listed once
      each, and then leaves exactly the other names. */
  lemma {:induction false} RemoveRunExactly(ns: seq<string>, keys: set<string>)
    ensures RemoveRun(ns, keys).0 == Pass <==>
      (forall i | 0 <= i < |ns| :: ns[i] in keys) && (forall i, j | 0 <= i < j < |ns| :: ns[i] != ns[j])
    ensures RemoveRun(ns, keys).0 == Pass ==> RemoveRun(ns, keys).1 == keys - (set n | n in ns)
    ensures RemoveRun(ns, keys).1 <= keys
    decreases |ns|
  {
    if ns != [] {
      RemovableCons(ns, keys);
      if ns[0] in keys {
        var rest := ns[1..];
        RemoveRunExactly(rest, keys - {ns[0]});
        if RemoveRun(ns, keys).0 == Pass {
          assert (set n | n in ns) == (set n | n in rest) + {ns[0]} by {
            assert ns == [ns[0]] + rest;
          }
        }
      }
    }
  }

  /** The `set` calls a card receives while a fan-out visits `ts`: the
      parameters once for each visited name registered to that card, in
      visit order. */
  function CallsTo(ts: seq<string>, devices: map<string, Gascard>, card: Gascard, params: seq<(string, string)>): seq<seq<(string, string)>> {
    if ts == [] then []
    else
      var t := ts[|ts| - 1];
      CallsTo(ts[..|ts| - 1], devices, card, params) + (if t in devices && devices[t] == card then [params] else [])
  }

  /** The cards registered under the visited names. */
  function Hit(devices: map<string, Gascard>, ts: seq<string>): set<Gascard> {
    set t | t in ts && t in devices :: devices[t]
  }

  /** The transports of the cards registered under the names `ts`. */
  function Channels(devices: map<string, Gascard>, ts: seq<string>): set<object> {
    set t | t in ts && t in devices :: devices[t].device as object
  }

  /** The cards registered under the names `ts` and their transports: all
      that a fan-out over `ts` may change. */
  function Reach(devices: map<string, Gascard>, ts: seq<string>): set<object> {
    (set t | t in ts && t in devices :: devices[t] as object) + (set t | t in ts && t in devices :: devices[t].device as object)
  }

  lemma CallsToSnoc(ts: seq<string>, t: string, devices: map<string, Gascard>, card: Gascard, params: seq<(string, string)>)
    ensures CallsTo(ts + [t], devices, card, params) ==
      CallsTo(ts, devices, card, params) + (if t in devices && devices[t] == card then [params] else [])
  {
    assert (ts + [t])[..|ts|] == ts;
  }

  /** Every call a fan-out makes on a card carries the fan-out's parameters. */
  lemma {:induction false} CallsToOnly(ts: seq<string>, devices: map<string, Gascard>, card: Gascard, params: seq<(string, string)>)
    ensures forall i | 0 <= i < |CallsTo(ts, devices, card, params)| :: CallsTo(ts, devices, card, params)[i] == params
    decreases |ts|
  {
    if ts != [] {
      CallsToOnly(ts[..|ts| - 1], devices, card, params);
    }
  }

  /** A card receives some call exactly when a visited name is registered
      to it. */
  lemma {:induction false} CallsToNone(ts: seq<string>, devices: map<string, Gascard>, card: Gascard, params: seq<(string, string)>)
    ensures CallsTo(ts, devices, card, params) == [] <==> card !in Hit(devices, ts)
    decreases |ts|
  {
    if ts != [] {
      var init := ts[..|ts| - 1];
      var t := ts[|ts| - 1];
      CallsToNone(init, devices, card, params);
      assert ts == init + [t];
      assert Hit(devices, ts) == Hit(devices, init) + (if t in devices then {devices[t]} else {});
    }
  }

  /** When names are visited once and no two names share a card, a visited
      card receives exactly one call. */
  lemma {:induction false} CallsToSingle(ts: seq<string>, devices: map<string, Gascard>, t: string, params: seq<(string, string)>)
    requires forall i, j | 0 <= i < j < |ts| :: ts[i] != ts[j]
    requires forall a, b | a in devices && b in devices && a != b :: devices[a] != devices[b]
    requires t in ts && t in devices
    ensures CallsTo(ts, devices, devices[t], params) == [params]
    decreases |ts|
  {
    var init := ts[..|ts| - 1];
    var last := ts[|ts| - 1];
    assert ts == init + [last];
    if last == t {
      assert t !in init;
      assert devices[t] !in Hit(devices, init);
      CallsToNone(init, devices, devices[t], params);
    } else {
      CallsToSingle(init, devices, t, params);
    }
  }

  /** Each registered card's `set` log is its log in `calls0` followed by
      the calls of a fan-out over `visited`. */
  ghost predicate Got(devices: map<string, Gascard>, calls0: map<string, seq<seq<(string, string)>>>,
                      visited: seq<string>, params: seq<(string, string)>)
    reads set n | n in devices :: devices[n]
  {
    forall n {:trigger devices[n].setCalls} | n in devices ::
      n in calls0 && devices[n].setCalls == calls0[n] + CallsTo(visited, devices, devices[n], params)
  }

  /** The cards of a registry after a fan-out of `set` over `visited` with
      `params`: the registry is the same and each card has received one call
      per visited name registered to it, in visit order. */
  twostate predicate Delivered(registry: Registry, visited: seq<string>, params: seq<(string, string)>)
    reads registry, registry.Footprint()
  {
    && registry.devices == old(registry.devices) && registry.names == old(registry.names)
    && (forall n | n in registry.devices ::
          registry.devices[n].setCalls == old(registry.devices[n].setCalls) + CallsTo(visited, registry.devices, registry.devices[n], params))
  }

  /** The outcomes `outs` of the `set` calls a fan-out made on the cards
      under `visited`: one per visit, each what that card's `set` answers
      for `params`, and every one but the last passed, since an error ends
      the fan-out. */
  predicate Answered(devices: map<string, Gascard>, visited: seq<string>, params: seq<(string, string)>,
                     outs: seq<Outcome<Error>>)
  {
    && Replies(devices, visited, params, outs)
    && (forall k | 0 <= k < |outs| - 1 :: outs[k] == Pass)
  }

  /** `outs` holds, visit by visit, what the card under each name of
      `visited` answers to `set` with `params`. */
  predicate Replies(devices: map<string, Gascard>, visited: seq<string>, params: seq<(string, string)>,
                    outs: seq<Outcome<Error>>)
    decreases |visited|
  {
    && |outs| == |visited|
    && (visited != [] ==>
          var n := |visited| - 1;
          && visited[n] in devices && SetAnswer(params, devices[visited[n]].table, outs[n])
          && Replies(devices, visited[..n], params, outs[..n]))
  }

  /** Each visit's outcome is what its card's `set` answers. */
  lemma {:induction false} RepliesEach(devices: map<string, Gascard>, visited: seq<string>, params: seq<(string, string)>,
                                       outs: seq<Outcome<Error>>, k: nat)
    requires Replies(devices, visited, params, outs) && k < |visited|
    ensures visited[k] in devices && SetAnswer(params, devices[visited[k]].table, outs[k])
    decreases |visited|
  {
    var n := |visited| - 1;
    if k < n {
      RepliesEach(devices, visited[..n], params, outs[..n], k);
    }
  }

  /** Every card visited so far answered and passed. */
  predicate AllPassed(devices: map<string, Gascard>, visited: seq<string>, params: seq<(string, string)>,
                      outs: seq<Outcome<Error>>)
  {
    Answered(devices, visited, params, outs) && forall k | 0 <= k < |outs| :: outs[k] == Pass
  }

  /** A fan-out whose visits so far all passed, extended by one more card's
      answer: the last answer decides whether they all still passed. */
  lemma AnsweredSnoc(devices: map<string, Gascard>, visited: seq<string>, params: seq<(string, string)>,
                     outs: seq<Outcome<Error>>, t: string, out: Outcome<Error>)
    requires AllPassed(devices, visited, params, outs)
    requires t in devices && SetAnswer(params, devices[t].table, out)
    ensures Answered(devices, visited + [t], params, outs + [out])
    ensures out == Pass ==> AllPassed(devices, visited + [t], params, outs + [out])
  {
    assert (visited + [t])[..|visited|] == visited;
    assert (outs + [out])[..|outs|] == outs;
  }

  /** How a fan-out of one field's `set` over `ts` ended, `err` being the
      error it raised, if any: each visited card answered as its `set`
      does; no error means every one of them passed; an error is the failing
      card's, or otherwise KeyError for the first target not registered. */
  predicate FanOutEnded(devices: map<string, Gascard>, ts: seq<string>, params: seq<(string, string)>,
                        visited: seq<string>, outs: seq<Outcome<Error>>, err: Option<Error>)
  {
    && Answered(devices, visited, params, outs)
    && (err.None? ==> forall k | 0 <= k < |outs| :: outs[k] == Pass)
    && (outs != [] && outs[|outs| - 1].Fail? ==> err == Some(outs[|outs| - 1].error))
    && (err.Some? && (outs == [] || outs[|outs| - 1] == Pass) ==>
          |visited| < |ts| && ts[|visited|] !in devices && err == Some(KeyError(ts[|visited|])))
  }

  /** A fan-out ends at an unregistered target after every earlier visit
      passed. */
  lemma EndedMissing(devices: map<string, Gascard>, ts: seq<string>, params: seq<(string, string)>,
                     outs: seq<Outcome<Error>>, i: nat)
    requires i < |ts| && ts[i] !in devices
    requires AllPassed(devices, ts[..i], params, outs)
    ensures FanOutEnded(devices, ts, params, ts[..i], outs, Some(KeyError(ts[i])))
  {
  }

  /** A fan-out ends at the card whose `set` failed. */
  lemma EndedFailed(devices: map<string, Gascard>, ts: seq<string>, params: seq<(string, string)>,
                    visited: seq<string>, outs: seq<Outcome<Error>>)
    requires Answered(devices, visited, params, outs)
    requires outs != [] && outs[|outs| - 1].Fail?
    ensures FanOutEnded(devices, ts, params, visited, outs, Some(outs[|outs| - 1].error))
  {
  }

  /** A fan-out ends without error once every target was visited and passed. */
  lemma EndedPassed(devices: map<string, Gascard>, ts: seq<string>, params: seq<(string, string)>,
                    outs: seq<Outcome<Error>>)
    requires AllPassed(devices, ts, params, outs)
    ensures FanOutEnded(devices, ts, params, ts, outs, None)
  {
  }

  /** The error a fan-out's result carries, if any. */
  function ErrorOf<T>(r: Result<T, Error>): Option<Error> {
    if r.Failure? then Some(r.error) else None
  }

  /** One card's `get` as the registry saw it: the card's mode cache and
      its transport's pending input when it was asked, the order in which
      it read the owning modes, and what it returned. */
  datatype Fetch = Fetch(cur: Mode, pending: seq<Event>, order: seq<string>, result: Result<Record, Error>)

  /** `f` is what `card`'s `get` of `vals` returns from the state `f`
      records. */
  ghost predicate FetchOk(card: Gascard, vals: seq<string>, f: Fetch) {
    && f.result == GetReply(vals, card.table, card.isNum, f.order, f.cur, f.pending)
    && GetOrder(vals, card.table, f.order, f.result)
  }

  /** `fs` holds, ask by ask, what the card under each name of `asked`
      returned to `get` of `vals`. */
  ghost predicate Fetches(devices: map<string, Gascard>, vals: seq<string>, asked: seq<string>, fs: seq<Fetch>)
    decreases |asked|
  {
    && |fs| == |asked|
    && (asked != [] ==>
          var n := |asked| - 1;
          && asked[n] in devices && FetchOk(devices[asked[n]], vals, fs[n])
          && Fetches(devices, vals, asked[..n], fs[..n]))
  }

  /** Each ask's answer is what its card's `get` returns. */
  lemma {:induction false} FetchesEach(devices: map<string, Gascard>, vals: seq<string>, asked: seq<string>, fs: seq<Fetch>, k: nat)
    requires Fetches(devices, vals, asked, fs) && k < |asked|
    ensures asked[k] in devices && FetchOk(devices[asked[k]], vals, fs[k])
    decreases |asked|
  {
    var n := |asked| - 1;
    if k < n {
      FetchesEach(devices, vals, asked[..n], fs[..n], k);
    }
  }

  /** Every answer in `fs` is a record. */
  predicate AllGot(fs: seq<Fetch>) {
    forall k | 0 <= k < |fs| :: fs[k].result.Success?
  }

  /** The dictionary a fan-out of `get` builds from the answers `fs` to the
      targets `ts`: one entry per target, a later answer replacing an
      earlier one under a repeated name. */
  function Gathered(ts: seq<string>, fs: seq<Fetch>): (m: map<string, Record>)
    requires |fs| == |ts| && AllGot(fs)
    ensures m.Keys == set t | t in ts
    decreases |ts|
  {
    if ts == [] then map[]
    else
      var n := |ts| - 1;
      assert forall t :: t in ts <==> t in ts[..n] || t == ts[n];
      Gathered(ts[..n], fs[..n])[ts[n] := fs[n].result.value]
  }

  /** The entry of a target is the answer to its last ask. */
  lemma {:induction false} GatheredLast(ts: seq<string>, fs: seq<Fetch>, k: nat)
    requires |fs| == |ts| && AllGot(fs)
    requires k < |ts| && forall j | k < j < |ts| :: ts[j] != ts[k]
    ensures Gathered(ts, fs)[ts[k]] == fs[k].result.value
    decreases |ts|
  {
    var n := |ts| - 1;
    var init, inits := ts[..n], fs[..n];
    assert AllGot(inits);
    assert Gathered(ts, fs) == Gathered(init, inits)[ts[n] := fs[n].result.value];
    if k < n {
      assert init[k] == ts[k] && inits[k] == fs[k] && ts[n] != ts[k];
      assert forall j | k < j < |init| :: init[j] != init[k];
      GatheredLast(init, inits, k);
    }
  }

  /** How a fan-out of `get` of `vals` over `ts` ended with `r`, `fs` being
      the answers of the cards it asked, in order: each is what that card's
      `get` returned; every answer but the last was a record; a failed
      answer is the result's error; a failure with no failed answer is
      KeyError for the first target not registered; success means every
      target answered, and the dictionary is built from those answers. */
  ghost predicate GetEnded(devices: map<string, Gascard>, vals: seq<string>, ts: seq<string>, fs: seq<Fetch>,
                           r: Result<map<string, Record>, Error>)
  {
    && |fs| <= |ts|
    && Fetches(devices, vals, ts[..|fs|], fs)
    && (forall k | 0 <= k < |fs| - 1 :: fs[k].result.Success?)
    && (fs != [] && fs[|fs| - 1].result.Failure? ==> r == Failure(fs[|fs| - 1].result.error))
    && (r.Failure? && AllGot(fs) ==> |fs| < |ts| && ts[|fs|] !in devices && r == Failure(KeyError(ts[|fs|])))
    && (r.Success? ==> |fs| == |ts| && AllGot(fs) && r.value == Gathered(ts, fs))
  }

  /** One more ask extends the answers. */
  lemma FetchesSnoc(devices: map<string, Gascard>, vals: seq<string>, asked: seq<string>, fs: seq<Fetch>, t: string, f: Fetch)
    requires Fetches(devices, vals, asked, fs)
    requires t in devices && FetchOk(devices[t], vals, f)
    ensures Fetches(devices, vals, asked + [t], fs + [f])
  {
    assert (asked + [t])[..|asked|] == asked;
    assert (fs + [f])[..|fs|] == fs;
  }

  /** Each registered card's mode cache. */
  ghost function Caches(devices: map<string, Gascard>): (m: map<string, Mode>)
    reads set n | n in devices :: devices[n]
    ensures m.Keys == devices.Keys
  {
    map n | n in devices :: devices[n].currentMode
  }

  /** The pending input of each registered card's transport. */
  ghost function Pendings(devices: map<string, Gascard>): (m: map<string, seq<Event>>)
    reads set n | n in devices :: devices[n].device
    ensures m.Keys == devices.Keys
  {
    map n | n in devices :: devices[n].device.pending
  }

  /** A fan-out of `get` that has asked the first `i` targets, every one
      answering with a record, and has built `out` from those records. */
  ghost predicate AllFetched(devices: map<string, Gascard>, vals: seq<string>, ts: seq<string>, i: nat,
                             fs: seq<Fetch>, out: map<string, Record>)
  {
    && i <= |ts| && |fs| == i
    && Fetches(devices, vals, ts[..i], fs) && AllGot(fs) && out == Gathered(ts[..i], fs)
  }

  /** One more record extends the fan-out. */
  lemma FetchedSnoc(devices: map<string, Gascard>, vals: seq<string>, ts: seq<string>, i: nat,
                    fs: seq<Fetch>, out: map<string, Record>, f: Fetch)
    requires AllFetched(devices, vals, ts, i, fs, out) && i < |ts|
    requires Fetches(devices, vals, ts[..i] + [ts[i]], fs + [f]) && f.result.Success?
    ensures AllFetched(devices, vals, ts, i + 1, fs + [f], out[ts[i] := f.result.value])
  {
    assert ts[..i + 1] == ts[..i] + [ts[i]];
    assert (fs + [f])[..i] == fs;
  }

  /** A fan-out of `get` ends at an unregistered target after every earlier
      card answered with a record. */
  lemma GetMissing(devices: map<string, Gascard>, vals: seq<string>, ts: seq<string>, i: nat,
                   fs: seq<Fetch>, out: map<string, Record>)
    requires AllFetched(devices, vals, ts, i, fs, out) && i < |ts| && ts[i] !in devices
    ensures GetEnded(devices, vals, ts, fs, Failure(KeyError(ts[i])))
  {
  }

  /** A fan-out of `get` ends at the card whose `get` failed. */
  lemma GetFailed(devices: map<string, Gascard>, vals: seq<string>, ts: seq<string>, i: nat,
                  fs: seq<Fetch>, out: map<string, Record>, f: Fetch)
    requires AllFetched(devices, vals, ts, i, fs, out) && i < |ts|
    requires Fetches(devices, vals, ts[..i] + [ts[i]], fs + [f]) && f.result.Failure?
    ensures GetEnded(devices, vals, ts, fs + [f], Failure(f.result.error))
  {
    assert ts[..i + 1] == ts[..i] + [ts[i]];
    assert (fs + [f])[..i] == fs;
  }

  /** A fan-out of `get` succeeds once every target answered with a
      record. */
  lemma GetPassed(devices: map<string, Gascard>, vals: seq<string>, ts: seq<string>,
                  fs: seq<Fetch>, out: map<string, Record>)
    requires AllFetched(devices, vals, ts, |ts|, fs, out)
    ensures GetEnded(devices, vals, ts, fs, Success(out))
  {
    assert ts[..|ts|] == ts;
  }

  /** How many of the answers `fs` were records: all of them, or all but
      the failed last one. */
  function Good(fs: seq<Fetch>): (n: nat)
    ensures n <= |fs| <= n + 1
  {
    if AllGot(fs) then |fs| else |fs| - 1
  }

  /** Every entry of a dictionary built from answers to `get` of `vals` is
      a record its card's table allows. */
  lemma {:induction false} GatheredAnswers(devices: map<string, Gascard>, vals: seq<string>, ts: seq<string>, fs: seq<Fetch>)
    requires Fetches(devices, vals, ts, fs) && AllGot(fs)
    ensures forall t | t in Gathered(ts, fs) :: Answers(devices, vals, t, Gathered(ts, fs)[t])
    decreases |ts|
  {
    if ts != [] {
      var n := |ts| - 1;
      assert AllGot(fs[..n]);
      GatheredAnswers(devices, vals, ts[..n], fs[..n]);
    }
  }

  /** What the end of a fan-out of `get` over `ts` tells of the targets
      visited with a record, `ts[..Good(fs)]`: they answered with records; a
      complete result covers every target, each entry a record its card's
      table allows; any unregistered target means failure, which stops
      before the end, with KeyError when the next target is unregistered;
      and when every target is registered and every answer was a record,
      the fan-out succeeded. */
  lemma EndedFacts(devices: map<string, Gascard>, vals: seq<string>, ts: seq<string>, fs: seq<Fetch>,
                   r: Result<map<string, Record>, Error>)
    requires GetEnded(devices, vals, ts, fs, r)
    ensures AllGot(fs[..Good(fs)])
    ensures r.Success? ==> Good(fs) == |ts| && r.value.Keys == set t | t in ts
    ensures r.Success? ==> forall t | t in r.value :: Answers(devices, vals, t, r.value[t])
    ensures (exists t | t in ts :: t !in devices) ==> r.Failure?
    ensures r.Failure? ==> Good(fs) < |ts|
    ensures r.Failure? && ts[Good(fs)] !in devices ==> r == Failure(KeyError(ts[Good(fs)]))
    ensures (forall t | t in ts :: t in devices) && AllGot(fs) ==> r.Success?
  {
    if r.Success? {
      assert ts[..|ts|] == ts;
      GatheredAnswers(devices, vals, ts, fs);
      forall t | t in ts ensures t in devices {
        var k :| 0 <= k < |ts| && ts[k] == t;
        FetchesEach(devices, vals, ts, fs, k);
      }
    } else if !AllGot(fs) {
      var n := |fs| - 1;
      FetchesEach(devices, vals, ts[..|fs|], fs, n);
    }
  }

  /** In a complete result, a target's entry is the record its card's
      `get` returned when last asked. */
  lemma EndedRecord(devices: map<string, Gascard>, vals: seq<string>, ts: seq<string>, fs: seq<Fetch>,
                    r: Result<map<string, Record>, Error>, k: nat)
    requires GetEnded(devices, vals, ts, fs, r) && r.Success?
    requires k < |ts| && forall j | k < j < |ts| :: ts[j] != ts[k]
    ensures ts[k] in devices && ts[k] in r.value
    ensures Success(r.value[ts[k]]) ==
      GetReply(vals, devices[ts[k]].table, devices[ts[k]].isNum, fs[k].order, fs[k].cur, fs[k].pending)
  {
    assert ts[..|ts|] == ts;
    FetchesEach(devices, vals, ts, fs, k);
    GatheredLast(ts, fs, k);
  }

  /** One more ask that resumes keeps every ask resuming. */
  lemma AllResumeSnoc(devices: map<string, Gascard>, vals: seq<string>, ts: seq<string>, fs: seq<Fetch>, f: Fetch,
                      modes0: map<string, Mode>, pend0: map<string, seq<Event>>)
    requires |fs| < |ts| && AllResume(devices, vals, ts, fs, modes0, pend0)
    requires Resumes(devices, vals, ts[..|fs|], fs, ts[|fs|], f, modes0, pend0)
    ensures AllResume(devices, vals, ts, fs + [f], modes0, pend0)
  {
    assert (fs + [f])[..|fs|] == fs;
  }

  /** One more registered name adds its card and its transport. */
  lemma ReachSnoc(devices: map<string, Gascard>, ts: seq<string>, t: string)
    requires t in devices
    ensures Hit(devices, ts + [t]) == Hit(devices, ts) + {devices[t]}
    ensures Channels(devices, ts + [t]) == Channels(devices, ts) + {devices[t].device}
  {
    assert forall u :: u in ts + [t] <==> u in ts || u == t;
  }

  /** The index of the last name of `asked` registered to `card`, or -1. */
  function LastOn(devices: map<string, Gascard>, asked: seq<string>, card: Gascard): (j: int)
    ensures -1 <= j < |asked|
    ensures 0 <= j ==> asked[j] in devices && devices[asked[j]] == card
    decreases |asked|
  {
    if asked == [] then -1
    else
      var n := |asked| - 1;
      if asked[n] in devices && devices[asked[n]] == card then n else LastOn(devices, asked[..n], card)
  }

  /** The index of the last name of `asked` whose card uses the transport
      `dev`, or -1. */
  function LastVia(devices: map<string, Gascard>, asked: seq<string>, dev: SerialDevice): (j: int)
    ensures -1 <= j < |asked|
    ensures 0 <= j ==> asked[j] in devices && devices[asked[j]].device == dev
    decreases |asked|
  {
    if asked == [] then -1
    else
      var n := |asked| - 1;
      if asked[n] in devices && devices[asked[n]].device == dev then n else LastVia(devices, asked[..n], dev)
  }

  /** No name of `asked` is registered to `card` exactly when `card` was
      not asked, and likewise for a transport. */
  lemma {:induction false} LastNone(devices: map<string, Gascard>, asked: seq<string>, card: Gascard)
    ensures LastOn(devices, asked, card) < 0 <==> card !in Hit(devices, asked)
    ensures LastVia(devices, asked, card.device) < 0 <==> card.device !in Channels(devices, asked)
    decreases |asked|
  {
    if asked != [] {
      var n := |asked| - 1;
      LastNone(devices, asked[..n], card);
      assert asked == asked[..n] + [asked[n]];
      if asked[n] in devices {
        ReachSnoc(devices, asked[..n], asked[n]);
      } else {
        assert forall u :: u in asked && u in devices <==> u in asked[..n] && u in devices;
      }
    }
  }

  /** One more ask under `ts[i]` is the last ask of its card and of its
      transport; other cards and transports keep their last ask. */
  lemma LastSnoc(devices: map<string, Gascard>, ts: seq<string>, i: nat)
    requires i < |ts| && ts[i] in devices
    ensures forall card: Gascard ::
      LastOn(devices, ts[..i + 1], card) == (if devices[ts[i]] == card then i else LastOn(devices, ts[..i], card))
    ensures forall dev: SerialDevice ::
      LastVia(devices, ts[..i + 1], dev) == (if devices[ts[i]].device == dev then i else LastVia(devices, ts[..i], dev))
  {
    var asked := ts[..i + 1];
    assert asked[..i] == ts[..i] && asked[i] == ts[i] && asked != [];
    forall card: Gascard ensures LastOn(devices, asked, card) ==
      (if devices[ts[i]] == card then i else LastOn(devices, ts[..i], card)) {
    }
    forall dev: SerialDevice ensures LastVia(devices, asked, dev) ==
      (if devices[ts[i]].device == dev then i else LastVia(devices, ts[..i], dev)) {
    }
  }

  /** The mode cache and pending input `card`'s `get` of `vals` leaves
      behind after answering `f`. */
  function LeftBy(card: Gascard, vals: seq<string>, f: Fetch): (Mode, seq<Event>) {
    GetLeaves(vals, card.table, card.isNum, f.order, f.cur, f.pending)
  }

  /** The mode cache of the card under `t` after the asks under `asked`
      answered by `fs`: what its last ask left, or its cache in `modes0`
      when it was not asked. */
  function CacheAfter(devices: map<string, Gascard>, vals: seq<string>, asked: seq<string>, fs: seq<Fetch>,
                      t: string, modes0: map<string, Mode>): Mode
    requires |fs| == |asked| && t in devices && t in modes0
  {
    var j := LastOn(devices, asked, devices[t]);
    if j < 0 then modes0[t] else LeftBy(devices[t], vals, fs[j]).0
  }

  /** The pending input of the transport of the card under `t` after the
      asks under `asked` answered by `fs`: what the last ask of a card on
      that transport left, or its input in `pend0` when there was none. */
  function InputAfter(devices: map<string, Gascard>, vals: seq<string>, asked: seq<string>, fs: seq<Fetch>,
                      t: string, pend0: map<string, seq<Event>>): seq<Event>
    requires |fs| == |asked| && t in devices && t in pend0
  {
    var j := LastVia(devices, asked, devices[t].device);
    if j < 0 then pend0[t] else LeftBy(devices[asked[j]], vals, fs[j]).1
  }

  /** Every registered card and transport holds the state the asks under
      `asked`, answered by `fs`, left it in, starting from `modes0` and
      `pend0`. */
  ghost predicate Current(devices: map<string, Gascard>, vals: seq<string>, asked: seq<string>, fs: seq<Fetch>,
                          modes0: map<string, Mode>, pend0: map<string, seq<Event>>)
    requires |fs| == |asked|
    reads (set n | n in devices :: devices[n]), (set n | n in devices :: devices[n].device)
  {
    CurrentIn(devices, vals, asked, fs, modes0, pend0, Caches(devices), Pendings(devices))
  }

  /** `modes` and `pend` are the mode caches and pending inputs the asks
      under `asked`, answered by `fs`, leave from `modes0` and `pend0`. */
  predicate CurrentIn(devices: map<string, Gascard>, vals: seq<string>, asked: seq<string>, fs: seq<Fetch>,
                      modes0: map<string, Mode>, pend0: map<string, seq<Event>>,
                      modes: map<string, Mode>, pend: map<string, seq<Event>>)
    requires |fs| == |asked|
  {
    forall n | n in devices ::
      && n in modes0 && n in pend0 && n in modes && n in pend
      && modes[n] == CacheAfter(devices, vals, asked, fs, n, modes0)
      && pend[n] == InputAfter(devices, vals, asked, fs, n, pend0)
  }

  /** One ask under `ts[i]` answered by `f`, changing only its card's mode
      cache and its transport's input to what the ask leaves, resumes from
      the current state and keeps the state current. */
  lemma CurrentStep(devices: map<string, Gascard>, vals: seq<string>, ts: seq<string>, i: nat, fs: seq<Fetch>, f: Fetch,
                    modes0: map<string, Mode>, pend0: map<string, seq<Event>>,
                    m1: map<string, Mode>, p1: map<string, seq<Event>>, m2: map<string, Mode>, p2: map<string, seq<Event>>)
    requires i < |ts| && ts[i] in devices && |fs| == i
    requires CurrentIn(devices, vals, ts[..i], fs, modes0, pend0, m1, p1)
    requires f.cur == m1[ts[i]] && f.pending == p1[ts[i]]
    requires forall n | n in devices ::
      n in m2 && m2[n] == (if devices[n] == devices[ts[i]] then LeftBy(devices[ts[i]], vals, f).0 else m1[n])
    requires forall n | n in devices ::
      n in p2 && p2[n] == (if devices[n].device == devices[ts[i]].device then LeftBy(devices[ts[i]], vals, f).1 else p1[n])
    ensures Resumes(devices, vals, ts[..i], fs, ts[i], f, modes0, pend0)
    ensures CurrentIn(devices, vals, ts[..i + 1], fs + [f], modes0, pend0, m2, p2)
  {
    LastSnoc(devices, ts, i);
    forall n | n in devices
      ensures m2[n] == CacheAfter(devices, vals, ts[..i + 1], fs + [f], n, modes0)
      ensures p2[n] == InputAfter(devices, vals, ts[..i + 1], fs + [f], n, pend0)
    {
      var j := LastOn(devices, ts[..i], devices[n]);
      if 0 <= j {
        assert (fs + [f])[j] == fs[j];
      }
      var k := LastVia(devices, ts[..i], devices[n].device);
      if 0 <= k {
        assert (fs + [f])[k] == fs[k] && ts[..i + 1][k] == ts[..i][k];
      }
    }
  }

  /** An ask of `t` after the asks under `before`, answered by `bfs`, that
      is answered by `f`: the card answers from the mode cache and pending
      input the earlier asks left it, or from `modes0` and `pend0` where
      they did not touch them. */
  predicate Resumes(devices: map<string, Gascard>, vals: seq<string>, before: seq<string>, bfs: seq<Fetch>,
                    t: string, f: Fetch, modes0: map<string, Mode>, pend0: map<string, seq<Event>>)
    requires |bfs| == |before|
  {
    t in devices ==>
      && t in modes0 && t in pend0
      && f.cur == CacheAfter(devices, vals, before, bfs, t, modes0)
      && f.pending == InputAfter(devices, vals, before, bfs, t, pend0)
  }

  /** Every ask of a fan-out over `ts` answered by `fs` resumes from what
      the asks before it left. */
  predicate AllResume(devices: map<string, Gascard>, vals: seq<string>, ts: seq<string>, fs: seq<Fetch>,
                      modes0: map<string, Mode>, pend0: map<string, seq<Event>>)
    decreases |fs|
  {
    && |fs| <= |ts|
    && (fs != [] ==>
          var n := |fs| - 1;
          Resumes(devices, vals, ts[..n], fs[..n], ts[n], fs[n], modes0, pend0) && AllResume(devices, vals, ts, fs[..n], modes0, pend0))
  }

  /** The `k`-th ask of such a fan-out resumes from what the asks before it
      left. */
  lemma {:induction false} AllResumeEach(devices: map<string, Gascard>, vals: seq<string>, ts: seq<string>, fs: seq<Fetch>,
                                         modes0: map<string, Mode>, pend0: map<string, seq<Event>>, k: nat)
    requires AllResume(devices, vals, ts, fs, modes0, pend0) && k < |fs|
    ensures k < |ts| && Resumes(devices, vals, ts[..k], fs[..k], ts[k], fs[k], modes0, pend0)
    decreases |fs|
  {
    var n := |fs| - 1;
    if k < n {
      AllResumeEach(devices, vals, ts, fs[..n], modes0, pend0, k);
      assert fs[..n][..k] == fs[..k];
    }
  }

  /** An ask of a card no earlier ask reached answers from its mode cache
      in `modes0`, and from its transport's input in `pend0` when no card
      asked before uses that transport. */
  lemma FirstAskFrom(devices: map<string, Gascard>, vals: seq<string>, ts: seq<string>, fs: seq<Fetch>,
                     modes0: map<string, Mode>, pend0: map<string, seq<Event>>, k: nat)
    requires AllResume(devices, vals, ts, fs, modes0, pend0) && k < |fs| && k < |ts| && ts[k] in devices
    ensures devices[ts[k]] !in Hit(devices, ts[..k]) ==> ts[k] in modes0 && fs[k].cur == modes0[ts[k]]
    ensures devices[ts[k]].device !in Channels(devices, ts[..k]) ==> ts[k] in pend0 && fs[k].pending == pend0[ts[k]]
  {
    AllResumeEach(devices, vals, ts, fs, modes0, pend0, k);
    LastNone(devices, ts[..k], devices[ts[k]]);
  }

  /** A later ask of a card answers from the mode cache the card's previous
      ask left. */
  lemma LaterAskFrom(devices: map<string, Gascard>, vals: seq<string>, ts: seq<string>, fs: seq<Fetch>,
                     modes0: map<string, Mode>, pend0: map<string, seq<Event>>, j: nat, k: nat)
    requires AllResume(devices, vals, ts, fs, modes0, pend0) && j < k < |fs| && k < |ts|
    requires ts[j] in devices && ts[k] in devices && devices[ts[j]] == devices[ts[k]]
    requires forall m | j < m < k && ts[m] in devices :: devices[ts[m]] != devices[ts[k]]
    ensures fs[k].cur == LeftBy(devices[ts[k]], vals, fs[j]).0
  {
    AllResumeEach(devices, vals, ts, fs, modes0, pend0, k);
    LastOnAt(devices, ts[..k], devices[ts[k]], j);
  }

  /** The last name of `asked` registered to `card` is at `j` when no later
      name is. */
  lemma {:induction false} LastOnAt(devices: map<string, Gascard>, asked: seq<string>, card: Gascard, j: nat)
    requires j < |asked| && asked[j] in devices && devices[asked[j]] == card
    requires forall m | j < m < |asked| && asked[m] in devices :: devices[asked[m]] != card
    ensures LastOn(devices, asked, card) == j
    decreases |asked|
  {
    var n := |asked| - 1;
    if j < n {
      LastOnAt(devices, asked[..n], card, j);
    }
  }

  /** The `set` log of each registered card. */
  ghost function Logs(devices: map<string, Gascard>): (logs: map<string, seq<seq<(string, string)>>>)
    reads set n | n in devices :: devices[n]
    ensures forall params :: Got(devices, logs, [], params)
  {
    map n | n in devices :: devices[n].setCalls
  }

  /** The registry is the same and no card has logged a `set` call. */
  twostate predicate NoSets(registry: Registry)
    reads registry, registry.Footprint()
  {
    && registry.devices == old(registry.devices) && registry.names == old(registry.names)
    && (forall n | n in registry.devices :: registry.devices[n].setCalls == old(registry.devices[n].setCalls))
  }

  /** The parameters a command hands to each card; a string command never
      reaches a card. */
  function ParamsOf(command: Command): seq<(string, string)> {
    if command.Params? then command.params else []
  }

  /** The per-card parameters of the broadcast wrappers, with the spaced
      field names the registry uses. */
  const ZERO_FIELD: string := "Zero Gas Corr Factor"
  const SPAN_FIELD: string := "Span Gas Corr Factor"
  const TIME_CONSTANT_FIELD: string := "Time Constant"

  /** The `set` argument: a map of field values, or a string, which `set`
      splits into a list that has no `items()`. */
  datatype Command = Params(params: seq<(string, string)>) | Words(words: string)

  /** `DAQ`: every instance works on the one module-global registry. */
  class DAQ {
    const registry: Registry

    /** `__init__` rebinds the global registry to an empty one. */
    constructor (registry: Registry)
      modifies registry
      ensures this.registry == registry
      ensures registry.Valid() && registry.names == [] && registry.devices == map[]
    {
      this.registry := registry;
      registry.names := [];
      registry.devices := map[];
    }

    /** `init`: a fresh front end over the emptied registry, then
        `add_device` of `devs`. */
    static method Init(registry: Registry, devs: Devs, world: string -> seq<Event>, table: CodeTable, isNum: string -> bool)
      returns (daq: DAQ, r: Outcome<Error>)
      requires devs.Entries? ==> forall i, j | 0 <= i < j < |devs.entries| :: devs.entries[i].0 != devs.entries[j].0
      modifies registry
      ensures daq.registry == registry && registry.Valid()
      ensures AddPlan(devs).Failure? ==>
        r == Fail(AddPlan(devs).error) && registry.devices == map[] && registry.names == []
      ensures AddPlan(devs).Success? ==>
        var es := AddPlan(devs).value;
        var k := FirstRejected(es, world, table);
        && r == (if k < |es| then Fail(HandshakeOf(es[k].1.port, world, table).error) else Pass)
        && registry.devices.Keys == Names(es[..k])
        && registry.names == NewNames(es, k, {})
        && (forall i | 0 <= i < k :: InstalledAt(registry.devices, es[i], world, table, isNum))
        && PortsPristine(registry.devices, es, k, world)
    {
      daq := new DAQ(registry);
      assert registry.devices.Keys == {};
      r := daq.AddDevice(devs, world, table, isNum);
      assert [] + registry.names == registry.names;
    }

    /** One entry of `add_device`, first half: open a port through the
        handshake, or take the card as given. */
    static method Admit(entry: Entry, world: string -> seq<Event>, table: CodeTable, isNum: string -> bool)
      returns (res: Result<Gascard, Error>)
      ensures res.Success? <==> Admits(entry, world, table)
      ensures res.Failure? ==> res.error == HandshakeOf(entry.port, world, table).error
      ensures res.Success? ==> Installed(entry, res.value, world, table, isNum) && (entry.Port? ==> fresh(res.value))
      ensures res.Success? ==> Pristine(entry, res.value, world)
    {
      if entry.Port? {
        res := Gascard.NewDevice(entry.port, world(entry.port), table, isNum);
      } else {
        res := Success(entry.card);
      }
    }

    /** One entry of `add_device`, second half: store the admitted card of
        entry `i` under its name. The entries before `i` were stored over
        `devices0` with their new names appended to `names0`; so were the
        first `i + 1` afterwards. */
    method Store(es: seq<(string, Entry)>, i: nat, card: Gascard, world: string -> seq<Event>, table: CodeTable,
                 isNum: string -> bool, ghost devices0: map<string, Gascard>, ghost names0: seq<string>,
                 ghost made: set<Gascard>)
      requires i < |es| && forall a, b | 0 <= a < b < |es| :: es[a].0 != es[b].0
      requires registry.Valid() && AllUnused(made, world)
      requires AddedUpTo(registry.devices, devices0, es, i, world, table, isNum)
      requires ListedAfter(registry.names, names0, es, i, devices0.Keys)
      requires Installed(es[i].1, card, world, table, isNum)
      modifies registry
      ensures registry.Valid()
      ensures registry.devices == old(registry.devices)[es[i].0 := card]
      ensures AddedUpTo(registry.devices, devices0, es, i + 1, world, table, isNum)
      ensures ListedAfter(registry.names, names0, es, i + 1, devices0.Keys)
      ensures AllUnused(made, world)
    {
      NewNamesStep(es, i, devices0.Keys, registry.devices.Keys);
      AddedStep(registry.devices, devices0, es, i, card, world, table, isNum);
      registry.Put(es[i].0, card);
    }

    /** The registry after the first `i` entries of `es` were stored over
        the cards `devices0` listed as `names0`. */
    ghost predicate Progress(registry: Registry, devices0: map<string, Gascard>, names0: seq<string>,
                             es: seq<(string, Entry)>, i: nat, world: string -> seq<Event>, table: CodeTable,
                             isNum: string -> bool, made: set<Gascard>)
      requires i <= |es|
      reads registry, registry.Footprint(), made, (set c | c in made :: c.device)
    {
      && registry.Valid()
      && AddedUpTo(registry.devices, devices0, es, i, world, table, isNum)
      && ListedAfter(registry.names, names0, es, i, devices0.Keys)
      && OpenedBy(registry.devices, es, i, made)
      && AllUnused(made, world)
    }

    /** One entry of `add_device`: admit it, then store its card. */
    method AddOne(es: seq<(string, Entry)>, i: nat, world: string -> seq<Event>, table: CodeTable, isNum: string -> bool,
                  ghost devices0: map<string, Gascard>, ghost names0: seq<string>, ghost made: set<Gascard>)
      returns (res: Result<Gascard, Error>)
      requires i < |es| && forall a, b | 0 <= a < b < |es| :: es[a].0 != es[b].0
      requires Progress(registry, devices0, names0, es, i, world, table, isNum, made)
      modifies registry
      ensures res.Success? <==> Admits(es[i].1, world, table)
      ensures res.Failure? ==>
        && res.error == HandshakeOf(es[i].1.port, world, table).error
        && registry.names == old(registry.names) && registry.devices == old(registry.devices)
      ensures res.Success? ==>
        && registry.devices == old(registry.devices)[es[i].0 := res.value]
        && Progress(registry, devices0, names0, es, i + 1, world, table, isNum, made + Made(es[i].1, res.value))
        && (es[i].1.Port? ==> fresh(res.value))
    {
      res := Admit(es[i].1, world, table, isNum);
      if res.Success? {
        OpenedStep(registry.devices, es, i, made, res.value);
        Store(es, i, res.value, world, table, isNum, devices0, names0, made + Made(es[i].1, res.value));
      }
    }

    /** `add_device`: each entry in turn, a port opened through the
        handshake and a card stored as is, under its name; an existing name
        is overwritten in place. A failed handshake stops the loop with the
        earlier entries kept. */
    method AddDevice(devs: Devs, world: string -> seq<Event>, table: CodeTable, isNum: string -> bool)
      returns (r: Outcome<Error>)
      requires registry.Valid()
      requires devs.Entries? ==> forall i, j | 0 <= i < j < |devs.entries| :: devs.entries[i].0 != devs.entries[j].0
      modifies registry
      ensures registry.Valid()
      ensures AddPlan(devs).Failure? ==>
        r == Fail(AddPlan(devs).error) && registry.devices == old(registry.devices) && registry.names == old(registry.names)
      ensures AddPlan(devs).Success? ==>
        var es := AddPlan(devs).value;
        var k := FirstRejected(es, world, table);
        && r == (if k < |es| then Fail(HandshakeOf(es[k].1.port, world, table).error) else Pass)
        && registry.devices.Keys == old(registry.devices).Keys + Names(es[..k])
        && (forall n | n in old(registry.devices) && n !in Names(es[..k]) ::
              registry.devices[n] == old(registry.devices)[n])
        && (forall i | 0 <= i < k :: InstalledAt(registry.devices, es[i], world, table, isNum))
        && PortsPristine(registry.devices, es, k, world)
        && FreshPorts(registry.devices, es, k)
        && registry.names == old(registry.names) + NewNames(es, k, old(registry.devices).Keys)
    {
      var plan := AddPlan(devs);
      if plan.Failure? {
        return Fail(plan.error);
      }
      r := AddAll(plan.value, world, table, isNum);
    }

    /** The loop of `add_device` over its entries. */
    method AddAll(es: seq<(string, Entry)>, world: string -> seq<Event>, table: CodeTable, isNum: string -> bool)
      returns (r: Outcome<Error>)
      requires registry.Valid()
      requires forall i, j | 0 <= i < j < |es| :: es[i].0 != es[j].0
      modifies registry
      ensures registry.Valid()
      ensures var k := FirstRejected(es, world, table);
        && r == (if k < |es| then Fail(HandshakeOf(es[k].1.port, world, table).error) else Pass)
        && AddedUpTo(registry.devices, old(registry.devices), es, k, world, table, isNum)
        && PortsPristine(registry.devices, es, k, world)
        && FreshPorts(registry.devices, es, k)
        && ListedAfter(registry.names, old(registry.names), es, k, old(registry.devices).Keys)
    {
      ghost var devices0 := registry.devices;
      ghost var names0 := registry.names;
      ghost var made: set<Gascard> := {};
      var i := 0;
      while i < |es|
        invariant 0 <= i <= |es|
        invariant forall j | 0 <= j < i :: Admits(es[j].1, world, table)
        invariant Progress(registry, devices0, names0, es, i, world, table, isNum, made)
        invariant fresh(made)
      {
        var res := AddOne(es, i, world, table, isNum, devices0, names0, made);
        if res.Failure? {
          FirstRejectedUnique(es, world, table, i);
          PristineFromMade(registry.devices, es, i, made, world, table, isNum);
          return Fail(res.error);
        }
        made := made + Made(es[i].1, res.value);
        i := i + 1;
      }
      FirstRejectedUnique(es, world, table, |es|);
      PristineFromMade(registry.devices, es, |es|, made, world, table, isNum);
      r := Pass;
    }

    /** `remove_device`: closes each named card's transport, then forgets
        the name; an unregistered name raises KeyError and stops the loop. */
    method RemoveDevice(ns: seq<string>) returns (r: Outcome<Error>)
      requires registry.Valid()
      modifies registry, Channels(registry.devices, ns)
      ensures registry.Valid()
      ensures (r, registry.devices.Keys) == RemoveRun(ns, old(registry.devices).Keys)
      ensures registry.names == Keep(old(registry.names), registry.devices.Keys)
      ensures forall n | n in registry.devices :: n in old(registry.devices) && registry.devices[n] == old(registry.devices)[n]
      ensures forall n | n in old(registry.devices) && n !in registry.devices :: old(registry.devices)[n].device.closed
      ensures forall n | n in registry.devices :: unchanged(registry.devices[n])
      ensures forall n | n in registry.devices && registry.devices[n].device !in Channels(old(registry.devices), ns) ::
        unchanged(registry.devices[n].device)
    {
      ghost var keys0 := registry.devices.Keys;
      ghost var devices0 := registry.devices;
      ghost var names0 := registry.names;
      KeepAll(names0, keys0);
      for i := 0 to |ns|
        invariant registry.Valid()
        invariant registry.names == Keep(names0, registry.devices.Keys)
        invariant RemoveRun(ns, keys0) == RemoveRun(ns[i..], registry.devices.Keys)
        invariant forall n | n in registry.devices :: n in devices0 && registry.devices[n] == devices0[n]
        invariant forall n | n in devices0 && n !in registry.devices :: devices0[n].device.closed
      {
        assert ns[i..][1..] == ns[i + 1..];
        var n := ns[i];
        if n !in registry.devices {
          return Fail(KeyError(n));
        }
        assert n in ns;
        Forget(n, devices0, names0);
      }
      r := Pass;
    }

    /** One name of `remove_device`: close the card's transport, then
        delete the name. The registry stays the original `devices0` less
        the names deleted, listed in the original order `names0`, with the
        deleted cards' transports closed. */
    method Forget(n: string, ghost devices0: map<string, Gascard>, ghost names0: seq<string>)
      requires registry.Valid() && n in registry.devices
      requires registry.names == Keep(names0, registry.devices.Keys)
      requires forall m | m in registry.devices :: m in devices0 && registry.devices[m] == devices0[m]
      requires forall m | m in devices0 && m !in registry.devices :: devices0[m].device.closed
      modifies registry, registry.devices[n].device
      ensures registry.Valid()
      ensures registry.devices.Keys == old(registry.devices).Keys - {n}
      ensures registry.names == Keep(names0, registry.devices.Keys)
      ensures forall m | m in registry.devices :: m in devices0 && registry.devices[m] == devices0[m]
      ensures forall m | m in devices0 && m !in registry.devices :: devices0[m].device.closed
    {
      KeepNested(names0, registry.devices.Keys, registry.devices.Keys - {n});
      registry.devices[n].device.Close();
      registry.Delete(n);
    }

    /** One card after another: look the name up (KeyError when absent) and
        run `set` on it; an error that `set` raises ends the fan-out, the
        card that raised it having been visited. */
    method Broadcast(command: Command, ts: seq<string>, ghost calls0: map<string, seq<seq<(string, string)>>>)
      returns (r: Result<set<string>, Error>, ghost visited: seq<string>, ghost outs: seq<Outcome<Error>>)
      requires registry.Valid()
      requires Got(registry.devices, calls0, [], ParamsOf(command))
      modifies Reach(registry.devices, ts)
      ensures visited <= ts
      ensures forall t | t in visited :: t in registry.devices
      ensures r.Success? ==> visited == ts && r.value == set t | t in ts
      ensures r.Success? ==> forall t | t in ts :: t in registry.devices
      ensures r.Success? ==> ts == [] || command.Params?
      ensures (exists i | 0 <= i < |ts| :: ts[i] !in registry.devices) ==> r.Failure?
      ensures ts != [] && ts[0] !in registry.devices ==> r == Failure(KeyError(ts[0]))
      ensures ts != [] && ts[0] in registry.devices && command.Words? ==> r == Failure(AttributeError("items"))
      ensures command.Words? ==> visited == []
      ensures Got(registry.devices, calls0, visited, ParamsOf(command))
      ensures Answered(registry.devices, visited, ParamsOf(command), outs)
      ensures r.Success? ==> forall k | 0 <= k < |outs| :: outs[k] == Pass
      ensures outs != [] && outs[|outs| - 1].Fail? ==> r == Failure(outs[|outs| - 1].error)
      ensures r.Failure? && (outs == [] || outs[|outs| - 1] == Pass) ==>
        && |visited| < |ts|
        && (ts[|visited|] !in registry.devices ==> r == Failure(KeyError(ts[|visited|])))
        && (ts[|visited|] in registry.devices ==> command.Words? && r == Failure(AttributeError("items")))
    {
      if command.Words? {
        // `val.items()` raises on the first card that is found.
        visited, outs := [], [];
        if ts == [] {
          r := Success({});
        } else if ts[0] !in registry.devices {
          r := Failure(KeyError(ts[0]));
        } else {
          r := Failure(AttributeError("items"));
        }
        return;
      }
      r, visited, outs := Deliver(command.params, ts, calls0);
      if r.Failure? && (outs == [] || outs[|outs| - 1] == Pass) {
        assert ts[..|visited|] == visited;
      }
    }

    /** The fan-out of a map of field values: one card after another, the
        name looked up (KeyError when absent) and `set` run on its card. */
    method Deliver(params: seq<(string, string)>, ts: seq<string>, ghost calls0: map<string, seq<seq<(string, string)>>>)
      returns (r: Result<set<string>, Error>, ghost visited: seq<string>, ghost outs: seq<Outcome<Error>>)
      requires registry.Valid()
      requires Got(registry.devices, calls0, [], params)
      modifies Reach(registry.devices, ts)
      ensures visited <= ts
      ensures forall t | t in visited :: t in registry.devices
      ensures r.Success? ==> visited == ts && r.value == set t | t in ts
      ensures Got(registry.devices, calls0, visited, params)
      ensures FanOutEnded(registry.devices, ts, params, visited, outs, ErrorOf(r))
    {
      visited, outs := [], [];
      for i := 0 to |ts|
        invariant visited == ts[..i]
        invariant forall t | t in visited :: t in registry.devices
        invariant Got(registry.devices, calls0, visited, params)
        invariant AllPassed(registry.devices, visited, params, outs)
      {
        var t := ts[i];
        if t !in registry.devices {
          EndedMissing(registry.devices, ts, params, outs, i);
          return Failure(KeyError(t)), visited, outs;
        }
        assert t in ts;
        var out := Visit(t, params, visited, outs, calls0);
        visited, outs := visited + [t], outs + [out];
        assert visited == ts[..i + 1];
        if out.Fail? {
          EndedFailed(registry.devices, ts, params, visited, outs);
          return Failure(out.error), visited, outs;
        }
      }
      assert ts[..|ts|] == ts;
      EndedPassed(registry.devices, ts, params, outs);
      r := Success(set t | t in ts);
    }

    /** One step of the fan-out: `set` on the card under `t`, which extends
        the calls logged by the fan-out so far by that card's call. */
    method Visit(t: string, params: seq<(string, string)>, ghost before: seq<string>, ghost outs: seq<Outcome<Error>>,
                 ghost calls0: map<string, seq<seq<(string, string)>>>) returns (out: Outcome<Error>)
      requires t in registry.devices
      requires Got(registry.devices, calls0, before, params)
      requires AllPassed(registry.devices, before, params, outs)
      modifies registry.devices[t], registry.devices[t].device
      ensures Got(registry.devices, calls0, before + [t], params)
      ensures Answered(registry.devices, before + [t], params, outs + [out])
      ensures out == Pass ==> AllPassed(registry.devices, before + [t], params, outs + [out])
    {
      var card := registry.devices[t];
      out := Apply(card, params);
      AnsweredSnoc(registry.devices, before, params, outs, t, out);
      forall n | n in registry.devices
        ensures n in calls0 && registry.devices[n].setCalls == calls0[n] + CallsTo(before + [t], registry.devices, registry.devices[n], params)
      {
        CallsToSnoc(before, t, registry.devices, registry.devices[n], params);
      }
    }

    /** One card's `set`, seen from the registry: its outcome, which is what
        the card's `set` answers, and the call logged on the card. */
    static method Apply(card: Gascard, params: seq<(string, string)>) returns (r: Outcome<Error>)
      modifies card, card.device
      ensures card.setCalls == old(card.setCalls) + [params]
      ensures SetAnswer(params, card.table, r)
    {
      ghost var visited;
      r, visited := card.Set(params);
    }

    /** One card's `get`, seen from the registry `devices`: what the card
        returns from the mode cache and pending input it had when asked;
        the card's mode cache and the input of its transport become what
        the ask leaves, and nothing else a registered card holds changes. */
    static method Ask(card: Gascard, vals: seq<string>, ghost devices: map<string, Gascard>)
      returns (rec: Result<Record, Error>, ghost f: Fetch)
      modifies card, card.device
      ensures FetchOk(card, vals, f) && f.result == rec
      ensures f.cur == old(card.currentMode) && f.pending == old(card.device.pending)
      ensures (card.currentMode, card.device.pending) == LeftBy(card, vals, f)
      ensures forall n | n in devices :: devices[n].setCalls == old(devices[n].setCalls)
      ensures forall n | n in devices ::
        devices[n].currentMode == (if devices[n] == card then LeftBy(card, vals, f).0 else old(devices[n].currentMode))
      ensures forall n | n in devices ::
        devices[n].device.pending == (if devices[n].device == card.device then LeftBy(card, vals, f).1 else old(devices[n].device.pending))
    {
      ghost var order;
      ghost var cur, pending := card.currentMode, card.device.pending;
      rec, order := card.Get(vals);
      f := Fetch(cur, pending, order, rec);
    }

    /** One step of the fan-out of `get`: the card under `t` answers, and
        only it and its transport change. */
    method Query(vals: seq<string>, ts: seq<string>, i: nat, ghost fs: seq<Fetch>,
                 ghost modes0: map<string, Mode>, ghost pend0: map<string, seq<Event>>)
      returns (rec: Result<Record, Error>, ghost f: Fetch)
      requires i < |ts| && ts[i] in registry.devices
      requires Fetches(registry.devices, vals, ts[..i], fs)
      requires Current(registry.devices, vals, ts[..i], fs, modes0, pend0)
      modifies registry.devices[ts[i]], registry.devices[ts[i]].device
      ensures f.result == rec && Fetches(registry.devices, vals, ts[..i] + [ts[i]], fs + [f])
      ensures Resumes(registry.devices, vals, ts[..i], fs, ts[i], f, modes0, pend0)
      ensures Current(registry.devices, vals, ts[..i + 1], fs + [f], modes0, pend0)
      ensures NoSets(registry)
    {
      var card := registry.devices[ts[i]];
      ghost var m1, p1 := Caches(registry.devices), Pendings(registry.devices);
      rec, f := Ask(card, vals, registry.devices);
      FetchesSnoc(registry.devices, vals, ts[..i], fs, ts[i], f);
      CurrentStep(registry.devices, vals, ts, i, fs, f, modes0, pend0, m1, p1,
                  Caches(registry.devices), Pendings(registry.devices));
    }

    /** `get`: the named fields of every target card, keyed by card name. */
    method Get(val: Arg, id: Arg) returns (r: Result<map<string, Record>, Error>, ghost visited: seq<string>, ghost fs: seq<Fetch>)
      requires registry.Valid()
      modifies Reach(registry.devices, Targets(id, registry.names))
      ensures NoSets(registry)
      ensures visited <= Targets(id, registry.names)
      ensures r.Success? ==> visited == Targets(id, registry.names)
      ensures r.Success? ==> r.value.Keys == set t | t in Targets(id, registry.names)
      ensures r.Success? ==> forall t | t in r.value :: Answers(registry.devices, Request(val), t, r.value[t])
      ensures (exists t | t in Targets(id, registry.names) :: t !in registry.devices) ==> r.Failure?
      ensures r.Failure? ==> |visited| < |Targets(id, registry.names)|
      ensures r.Failure? && Targets(id, registry.names)[|visited|] !in registry.devices ==>
        r == Failure(KeyError(Targets(id, registry.names)[|visited|]))
      ensures GetEnded(registry.devices, Request(val), Targets(id, registry.names), fs, r)
      ensures AllResume(registry.devices, Request(val), Targets(id, registry.names), fs,
                        old(Caches(registry.devices)), old(Pendings(registry.devices)))
      ensures |visited| <= |fs| <= |visited| + 1 && AllGot(fs[..|visited|])
      ensures (forall t | t in Targets(id, registry.names) :: t in registry.devices) && AllGot(fs) ==> r.Success?
    {
      var ts := Targets(id, registry.names);
      r, fs := Collect(Request(val), ts);
      visited := ts[..Good(fs)];
      EndedFacts(registry.devices, Request(val), ts, fs, r);
    }

    /** The fan-out of `get`: one card after another, each answer stored
        under the card's name. */
    method Collect(vals: seq<string>, ts: seq<string>) returns (r: Result<map<string, Record>, Error>, ghost fs: seq<Fetch>)
      requires registry.Valid()
      modifies Reach(registry.devices, ts)
      ensures NoSets(registry)
      ensures GetEnded(registry.devices, vals, ts, fs, r)
      ensures AllResume(registry.devices, vals, ts, fs, old(Caches(registry.devices)), old(Pendings(registry.devices)))
    {
      ghost var modes0, pend0 := Caches(registry.devices), Pendings(registry.devices);
      var out: map<string, Record> := map[];
      var stopped := false;
      fs := [];
      for i := 0 to |ts|
        invariant !stopped
        invariant NoSets(registry)
        invariant AllFetched(registry.devices, vals, ts, i, fs, out)
        invariant Current(registry.devices, vals, ts[..i], fs, modes0, pend0) && AllResume(registry.devices, vals, ts, fs, modes0, pend0)
      {
        var t := ts[i];
        if t !in registry.devices {
          GetMissing(registry.devices, vals, ts, i, fs, out);
          r, stopped := Failure(KeyError(t)), true;
          break;
        }
        assert t in ts;
        var rec, f := Query(vals, ts, i, fs, modes0, pend0);
        AllResumeSnoc(registry.devices, vals, ts, fs, f, modes0, pend0);
        if rec.Failure? {
          GetFailed(registry.devices, vals, ts, i, fs, out, f);
          r, fs, stopped := Failure(rec.error), fs + [f], true;
          break;
        }
        FetchedSnoc(registry.devices, vals, ts, i, fs, out, f);
        out := out[t := rec.value];
        fs := fs + [f];
      }
      if !stopped {
        GetPassed(registry.devices, vals, ts, fs, out);
        r := Success(out);
      }
    }

    /** `set`: the same parameters to every target card; the result names
        each target (with no value). Only the target cards and their
        transports change. */
    method Set(command: Command, id: Arg)
      returns (r: Result<set<string>, Error>, ghost visited: seq<string>, ghost outs: seq<Outcome<Error>>)
      requires registry.Valid()
      modifies Reach(registry.devices, Targets(id, registry.names))
      ensures visited <= Targets(id, registry.names)
      ensures r.Success? ==> visited == Targets(id, registry.names) && r.value == set t | t in Targets(id, registry.names)
      ensures (exists t | t in Targets(id, registry.names) :: t !in registry.devices) ==> r.Failure?
      ensures r.Success? && command.Words? ==> Targets(id, registry.names) == []
      ensures command.Words? ==> visited == []
      ensures Delivered(registry, visited, ParamsOf(command))
      ensures Answered(registry.devices, visited, ParamsOf(command), outs)
      ensures r.Success? ==> forall k | 0 <= k < |outs| :: outs[k] == Pass
      ensures outs != [] && outs[|outs| - 1].Fail? ==> r == Failure(outs[|outs| - 1].error)
      ensures r.Failure? && (outs == [] || outs[|outs| - 1] == Pass) ==>
        var ts := Targets(id, registry.names);
        && |visited| < |ts|
        && (ts[|visited|] !in registry.devices ==> r == Failure(KeyError(ts[|visited|])))
        && (ts[|visited|] in registry.devices ==> command.Words? && r == Failure(AttributeError("items")))
    {
      ghost var calls0 := Logs(registry.devices);
      var ts := Targets(id, registry.names);
      r, visited, outs := Broadcast(command, ts, calls0);
      assert registry.names == old(registry.names) && registry.devices == old(registry.devices);
    }

    /** `zero` as written: with no id the loop over the registry names the
        unbound local `i`, so any registered card makes it fail before a
        write; with ids each listed card gets an empty zero factor. */
    method Zero(id: Arg)
      returns (r: Result<set<string>, Error>, ghost visited: seq<string>, ghost outs: seq<Outcome<Error>>)
      requires registry.Valid()
      modifies Reach(registry.devices, Items(id))
      ensures Blank(id) && registry.names != [] ==>
        r == Failure(UnboundLocalError("i")) && visited == [] && unchanged(registry.Footprint())
      ensures !(Blank(id) && registry.names != []) ==>
        && visited <= Items(id)
        && (r.Success? ==> visited == Items(id) && r.value == set t | t in Items(id))
      ensures !(Blank(id) && registry.names != []) ==>
        FanOutEnded(registry.devices, Items(id), [(ZERO_FIELD, "")], visited, outs, ErrorOf(r))
      ensures Delivered(registry, visited, [(ZERO_FIELD, "")])
    {
      ghost var calls0 := Logs(registry.devices);
      if Blank(id) && registry.names != [] {
        r, visited, outs := Failure(UnboundLocalError("i")), [], [];
      } else {
        r, visited, outs := Broadcast(Params([(ZERO_FIELD, "")]), Items(id), calls0);
      }
    }

    /** `zero` as evidently intended: a blank id zeroes every card. */
    method ZeroIntended(id: Arg)
      returns (r: Result<set<string>, Error>, ghost visited: seq<string>, ghost outs: seq<Outcome<Error>>)
      requires registry.Valid()
      modifies Reach(registry.devices, Targets(id, registry.names))
      ensures visited <= Targets(id, registry.names)
      ensures r.Success? ==> visited == Targets(id, registry.names) && r.value == set t | t in Targets(id, registry.names)
      ensures FanOutEnded(registry.devices, Targets(id, registry.names), [(ZERO_FIELD, "")], visited, outs, ErrorOf(r))
      ensures Delivered(registry, visited, [(ZERO_FIELD, "")])
    {
      ghost var calls0 := Logs(registry.devices);
      r, visited, outs := Broadcast(Params([(ZERO_FIELD, "")]), Targets(id, registry.names), calls0);
    }

    /** `span` as written: the same unbound `i` with no id; with ids each
        listed card gets the span factor `val`. */
    method Span(val: string, id: Arg)
      returns (r: Result<set<string>, Error>, ghost visited: seq<string>, ghost outs: seq<Outcome<Error>>)
      requires registry.Valid()
      modifies Reach(registry.devices, Items(id))
      ensures Blank(id) && registry.names != [] ==>
        r == Failure(UnboundLocalError("i")) && visited == [] && unchanged(registry.Footprint())
      ensures !(Blank(id) && registry.names != []) ==>
        && visited <= Items(id)
        && (r.Success? ==> visited == Items(id) && r.value == set t | t in Items(id))
      ensures !(Blank(id) && registry.names != []) ==>
        FanOutEnded(registry.devices, Items(id), [(SPAN_FIELD, val)], visited, outs, ErrorOf(r))
      ensures Delivered(registry, visited, [(SPAN_FIELD, val)])
    {
      ghost var calls0 := Logs(registry.devices);
      if Blank(id) && registry.names != [] {
        r, visited, outs := Failure(UnboundLocalError("i")), [], [];
      } else {
        r, visited, outs := Broadcast(Params([(SPAN_FIELD, val)]), Items(id), calls0);
      }
    }

    /** `span` as evidently intended: a blank id spans every card. */
    method SpanIntended(val: string, id: Arg)
      returns (r: Result<set<string>, Error>, ghost visited: seq<string>, ghost outs: seq<Outcome<Error>>)
      requires registry.Valid()
      modifies Reach(registry.devices, Targets(id, registry.names))
      ensures visited <= Targets(id, registry.names)
      ensures r.Success? ==> visited == Targets(id, registry.names) && r.value == set t | t in Targets(id, registry.names)
      ensures FanOutEnded(registry.devices, Targets(id, registry.names), [(SPAN_FIELD, val)], visited, outs, ErrorOf(r))
      ensures Delivered(registry, visited, [(SPAN_FIELD, val)])
    {
      ghost var calls0 := Logs(registry.devices);
      r, visited, outs := Broadcast(Params([(SPAN_FIELD, val)]), Targets(id, registry.names), calls0);
    }

    /** `time_const`: the time constant to every target card; no result. */
    method TimeConst(val: string, id: Arg)
      returns (r: Outcome<Error>, ghost visited: seq<string>, ghost outs: seq<Outcome<Error>>)
      requires registry.Valid()
      modifies Reach(registry.devices, Targets(id, registry.names))
      ensures visited <= Targets(id, registry.names)
      ensures r == Pass ==> visited == Targets(id, registry.names)
      ensures (exists t | t in Targets(id, registry.names) :: t !in registry.devices) ==> r.Fail?
      ensures FanOutEnded(registry.devices, Targets(id, registry.names), [(TIME_CONSTANT_FIELD, val)], visited, outs,
                          if r.Fail? then Some(r.error) else None)
      ensures Delivered(registry, visited, [(TIME_CONSTANT_FIELD, val)])
    {
      ghost var calls0 := Logs(registry.devices);
      var res;
      res, visited, outs := Broadcast(Params([(TIME_CONSTANT_FIELD, val)]), Targets(id, registry.names), calls0);
      r := if res.Success? then Pass else Fail(res.error);
    }
  }
}
