/**
  Document-style reconciliation: the MongoDB-backed inventory plugin.

  The machine collection and the group collection are fetched as plain lists.
  A first pass over the machines adds every active machine as a host (with all
  its fields except `hostname` as host variables) and retracts every inactive
  machine from every group's member list; a second pass turns every group into
  a group node with an edge to each surviving member.
 */
module LabDb {
  import opened Inventory

  /** A machine document's keys other than `hostname`: the type itself rules out a second `hostname`. */
  type Fields = f: Vars | "hostname" !in f witness map[]

  /**
    One document of the machine collection. `hostname` is `None` when the
    document has no `hostname` key; `fields` holds the document's other keys.
   */
  datatype MachineRecord = MachineRecord(hostname: Option<string>, fields: Fields)

  /** One document of the group collection: its name and its members' bare hostnames. */
  datatype GroupRecord = GroupRecord(name: string, members: seq<string>)

  /** The values Python reads as false, among those a field can hold. */
  const FalsyValues: set<Value> := {Null, Bool(false), Int(0), Str(""), List([])}

  /**
    `machine.get("active", True)`, read with Python truthiness: a record
    without `active` counts as active, and so does any value but the falsy ones.
   */
  predicate Active(m: MachineRecord)
    ensures Active(m) <==> "active" !in m.fields || m.fields["active"] !in FalsyValues
  {
    if "active" in m.fields then Truthy(m.fields["active"]) else true
  }

  /**
    The host variables a machine record sets: every field but `hostname`, with
    its value. The `Fields` type of the record already holds every key but
    `hostname`, so the fields are passed on as they are.
   */
  function HostVarsOf(m: MachineRecord): (r: Vars)
    ensures "hostname" !in r
    ensures forall k :: k in r ==> k in m.fields
    ensures forall k :: k in m.fields && k != "hostname" ==> k in r && r[k] == m.fields[k]
  {
    m.fields
  }

  /** Bare hostnames of the inactive records. */
  function InactiveNames(ms: seq<MachineRecord>): set<string> {
    set m | m in ms && !Active(m) && m.hostname.Some? :: m.hostname.value
  }

  /** Bare hostnames of the active records. */
  function ActiveNames(ms: seq<MachineRecord>): set<string> {
    set m | m in ms && Active(m) && m.hostname.Some? :: m.hostname.value
  }

  /*
   * Retraction
   */

  /** A member list with every hostname in `dead` filtered out. */
  function Without(s: seq<string>, dead: set<string>): (r: seq<string>)
    ensures forall x :: x in r <==> x in s && x !in dead
    ensures |r| <= |s|
  {
    if |s| == 0 then []
    else if s[0] in dead then Without(s[1..], dead)
    else [s[0]] + Without(s[1..], dead)
  }

  /** Filtering distributes over concatenation, so survivors keep their relative order. */
  lemma {:induction false} WithoutConcat(a: seq<string>, b: seq<string>, dead: set<string>)
    ensures Without(a + b, dead) == Without(a, dead) + Without(b, dead)
    decreases |a|
  {
    if |a| == 0 {
      assert a + b == b;
    } else {
      assert (a + b)[0] == a[0];
      assert (a + b)[1..] == a[1..] + b;
      WithoutConcat(a[1..], b, dead);
    }
  }

  /** Each hostname outside `dead` survives as many times as it occurred; those in `dead` vanish. */
  lemma {:induction false} WithoutCount(s: seq<string>, dead: set<string>, x: string)
    ensures multiset(Without(s, dead))[x] == if x in dead then 0 else multiset(s)[x]
    decreases |s|
  {
    if |s| > 0 {
      WithoutCount(s[1..], dead, x);
      assert s == [s[0]] + s[1..];
    }
  }

  /** Filtering twice is filtering once by the union: the order of retractions does not matter. */
  lemma {:induction false} WithoutTwice(s: seq<string>, a: set<string>, b: set<string>)
    ensures Without(Without(s, a), b) == Without(s, a + b)
    decreases |s|
  {
    if |s| > 0 {
      WithoutTwice(s[1..], a, b);
    }
  }

  /** A member list naming none of `dead` comes through unchanged. */
  lemma {:induction false} WithoutNoneDead(s: seq<string>, dead: set<string>)
    requires forall x :: x in s ==> x !in dead
    ensures Without(s, dead) == s
    decreases |s|
  {
    if |s| > 0 {
      WithoutNoneDead(s[1..], dead);
      assert s == [s[0]] + s[1..];
    }
  }

  /** Every group with `dead` filtered out of its member list; names and order untouched. */
  function RetractAll(gs: seq<GroupRecord>, dead: set<string>): (r: seq<GroupRecord>)
    ensures |r| == |gs|
    ensures forall i :: 0 <= i < |gs| ==> r[i].name == gs[i].name
    ensures forall i, x :: 0 <= i < |gs| ==> (x in r[i].members <==> x in gs[i].members && x !in dead)
  {
    seq(|gs|, i requires 0 <= i < |gs| => gs[i].(members := Without(gs[i].members, dead)))
  }

  lemma RetractNothing(gs: seq<GroupRecord>)
    ensures RetractAll(gs, {}) == gs
  {
    forall i | 0 <= i < |gs| {
      WithoutNoneDead(gs[i].members, {});
    }
  }

  lemma RetractAllTwice(gs: seq<GroupRecord>, a: set<string>, b: set<string>)
    ensures RetractAll(RetractAll(gs, a), b) == RetractAll(gs, a + b)
  {
    forall i | 0 <= i < |gs| {
      WithoutTwice(gs[i].members, a, b);
    }
  }

  /** Some group still has a member: the retraction filter then evaluates `machine["hostname"]`. */
  predicate AnyMembers(gs: seq<GroupRecord>) {
    exists i :: 0 <= i < |gs| && |gs[i].members| > 0
  }

  /*
   * The machine pass: the loop over the machine records
   */

  /** What the machine pass has produced so far: host variables by fqdn, and the groups as retracted. */
  datatype PassState = PassState(hosts: map<string, Vars>, groups: seq<GroupRecord>)

  /**
    One iteration of the machine loop. An inactive record retracts its hostname
    from every group and leaves the hosts alone; an active one merges its
    variables into its host, creating it if need be, and leaves the groups alone.
   */
  function Step(st: PassState, m: MachineRecord, domain: string): (r: Result<PassState>)
    ensures r.Err? <==> m.hostname.None? && (Active(m) || AnyMembers(st.groups))
    ensures r.Err? ==> r.error == MissingField("hostname")
    ensures r.Ok? && m.hostname.None? ==> r.value == st
    ensures r.Ok? && !Active(m) ==> r.value.hosts == st.hosts
    ensures r.Ok? && !Active(m) && m.hostname.Some? ==>
              && |r.value.groups| == |st.groups|
              && (forall i :: 0 <= i < |st.groups| ==> r.value.groups[i].name == st.groups[i].name)
              && forall i, x :: 0 <= i < |st.groups| ==>
                   (x in r.value.groups[i].members <==> x in st.groups[i].members && x != m.hostname.value)
    ensures r.Ok? && !Active(m) && m.hostname.Some? ==> r.value.groups == RetractAll(st.groups, {m.hostname.value})
    ensures r.Ok? && Active(m) ==> r.value.groups == st.groups
    ensures r.Ok? && Active(m) ==> r.value.hosts.Keys == st.hosts.Keys + {Fqdn(m.hostname.value, domain)}
    ensures r.Ok? && Active(m) ==>
              forall fq :: fq in st.hosts && fq != Fqdn(m.hostname.value, domain) ==> r.value.hosts[fq] == st.hosts[fq]
    ensures r.Ok? && Active(m) ==>
              forall k :: k in HostVarsOf(m) ==>
                k in r.value.hosts[Fqdn(m.hostname.value, domain)] && r.value.hosts[Fqdn(m.hostname.value, domain)][k] == HostVarsOf(m)[k]
    ensures r.Ok? && Active(m) ==>
              var fq := Fqdn(m.hostname.value, domain);
              forall k :: k in r.value.hosts[fq] <==> k in HostVarsOf(m) || (fq in st.hosts && k in st.hosts[fq])
    ensures r.Ok? && Active(m) ==>
              var fq := Fqdn(m.hostname.value, domain);
              forall k :: fq in st.hosts && k in st.hosts[fq] && k !in HostVarsOf(m) ==> r.value.hosts[fq][k] == st.hosts[fq][k]
  {
    if !Active(m) then
      match m.hostname
      case None => if AnyMembers(st.groups) then Err(MissingField("hostname")) else Ok(st)
      case Some(h) => Ok(st.(groups := RetractAll(st.groups, {h})))
    else
      match m.hostname
      case None => Err(MissingField("hostname"))
      case Some(h) =>
        var fq := Fqdn(h, domain);
        var prior := if fq in st.hosts then st.hosts[fq] else map[];
        Ok(st.(hosts := st.hosts[fq := prior + HostVarsOf(m)]))
  }

  /** The machine loop, machines taken in the order the collection returned them. */
  function MachinePass(ms: seq<MachineRecord>, groups: seq<GroupRecord>, domain: string): (r: Result<PassState>)
    ensures r.Err? ==> r.error == MissingField("hostname")
    ensures r.Ok? ==> r.value.hosts.Keys == Qualify(ActiveNames(ms), domain)
    ensures r.Ok? ==> r.value.groups == RetractAll(groups, InactiveNames(ms))
    ensures r.Ok? ==> forall fq :: fq in r.value.hosts ==> "hostname" !in r.value.hosts[fq]
    decreases |ms|
  {
    if |ms| == 0 then
      RetractNothing(groups);
      assert InactiveNames(ms) == {};
      Ok(PassState(map[], groups))
    else
      var p := ms[..|ms| - 1];
      var m := ms[|ms| - 1];
      assert ms == p + [m];
      match MachinePass(p, groups, domain)
      case Err(e) => Err(e)
      case Ok(st) =>
        var r := Step(st, m, domain);
        if !Active(m) && m.hostname.Some? then
          RetractAllTwice(groups, InactiveNames(p), {m.hostname.value});
          assert InactiveNames(ms) == InactiveNames(p) + {m.hostname.value};
          assert ActiveNames(ms) == ActiveNames(p);
          r
        else if Active(m) && m.hostname.Some? then
          assert InactiveNames(ms) == InactiveNames(p);
          assert ActiveNames(ms) == ActiveNames(p) + {m.hostname.value};
          r
        else
          assert InactiveNames(ms) == InactiveNames(p);
          assert ActiveNames(ms) == ActiveNames(p);
          r
  }

  /** The record at index `i` makes the machine pass fail: it has no `hostname`, and it is active or some member is left to compare it with. */
  predicate FailsAt(ms: seq<MachineRecord>, groups: seq<GroupRecord>, i: int)
    requires 0 <= i < |ms|
  {
    ms[i].hostname.None? && (Active(ms[i]) || AnyMembers(RetractAll(groups, InactiveNames(ms[..i]))))
  }

  /** The machine pass fails exactly when some record lacking `hostname` gets its hostname looked up. */
  lemma {:induction false} MachinePassFails(ms: seq<MachineRecord>, groups: seq<GroupRecord>, domain: string)
    ensures MachinePass(ms, groups, domain).Err? <==> exists i :: 0 <= i < |ms| && FailsAt(ms, groups, i)
    decreases |ms|
  {
    if |ms| > 0 {
      var p := ms[..|ms| - 1];
      MachinePassFails(p, groups, domain);
      forall i | 0 <= i < |p|
        ensures FailsAt(p, groups, i) <==> FailsAt(ms, groups, i)
      {
        assert p[..i] == ms[..i];
      }
      var n := |ms| - 1;
      assert ms[..n] == p;
      match MachinePass(p, groups, domain)
      case Err(_) =>
      case Ok(st) =>
        assert st.groups == RetractAll(groups, InactiveNames(ms[..n]));
        assert Step(st, ms[n], domain).Err? <==> FailsAt(ms, groups, n);
    }
  }

  /** A successful machine pass had a successful pass over every prefix. */
  lemma PrefixOk(ms: seq<MachineRecord>, groups: seq<GroupRecord>, domain: string)
    requires |ms| > 0 && MachinePass(ms, groups, domain).Ok?
    ensures MachinePass(ms[..|ms| - 1], groups, domain).Ok?
  {
  }

  /**
    The variables of host `h ++ domain` are the union of the variables of the
    active records named `h`: nothing else, and never `hostname`.
   */
  lemma {:induction false} HostVarsKeys(ms: seq<MachineRecord>, groups: seq<GroupRecord>, domain: string, h: string, k: string)
    requires MachinePass(ms, groups, domain).Ok?
    requires h in ActiveNames(ms)
    ensures Fqdn(h, domain) in MachinePass(ms, groups, domain).value.hosts
    ensures k in MachinePass(ms, groups, domain).value.hosts[Fqdn(h, domain)]
        <==> exists m :: m in ms && Active(m) && m.hostname == Some(h) && k in HostVarsOf(m)
    decreases |ms|
  {
    var hosts := MachinePass(ms, groups, domain).value.hosts;
    QualifyMembership(ActiveNames(ms), h, domain);
    var p := ms[..|ms| - 1];
    var m := ms[|ms| - 1];
    assert ms == p + [m];
    PrefixOk(ms, groups, domain);
    var before := MachinePass(p, groups, domain).value.hosts;
    QualifyMembership(ActiveNames(p), h, domain);
    if h in ActiveNames(p) {
      HostVarsKeys(p, groups, domain, h, k);
    }
    if Active(m) && m.hostname.Some? && m.hostname.value != h {
      FqdnInjective(m.hostname.value, h, domain);
    }
  }

  /**
    Later records win: a variable takes its value from the last active record
    named `h` that sets it.
   */
  lemma {:induction false} LastActiveRecordWins(ms: seq<MachineRecord>, groups: seq<GroupRecord>, domain: string, i: int, k: string)
    requires MachinePass(ms, groups, domain).Ok?
    requires 0 <= i < |ms| && Active(ms[i]) && ms[i].hostname.Some? && k in HostVarsOf(ms[i])
    requires forall j :: i < j < |ms| && Active(ms[j]) && ms[j].hostname == ms[i].hostname ==> k !in HostVarsOf(ms[j])
    ensures Fqdn(ms[i].hostname.value, domain) in MachinePass(ms, groups, domain).value.hosts
    ensures k in MachinePass(ms, groups, domain).value.hosts[Fqdn(ms[i].hostname.value, domain)]
    ensures MachinePass(ms, groups, domain).value.hosts[Fqdn(ms[i].hostname.value, domain)][k] == HostVarsOf(ms[i])[k]
    decreases |ms|
  {
    var p := ms[..|ms| - 1];
    var m := ms[|ms| - 1];
    assert ms == p + [m];
    PrefixOk(ms, groups, domain);
    var st := MachinePass(p, groups, domain).value;
    var after := Step(st, m, domain);
    assert after.Ok? && MachinePass(ms, groups, domain).value == after.value;
    var fq := Fqdn(ms[i].hostname.value, domain);
    if i < |ms| - 1 {
      assert p[i] == ms[i];
      LastActiveRecordWins(p, groups, domain, i, k);
      assert fq in st.hosts && k in st.hosts[fq] && st.hosts[fq][k] == HostVarsOf(ms[i])[k];
      if Active(m) {
        var fq' := Fqdn(m.hostname.value, domain);
        if m.hostname != ms[i].hostname {
          FqdnInjective(m.hostname.value, ms[i].hostname.value, domain);
          assert after.value.hosts[fq] == st.hosts[fq];
        } else {
          assert k !in HostVarsOf(m);
          assert after.value.hosts[fq] == st.hosts[fq] + HostVarsOf(m);
        }
      } else {
        assert after.value.hosts == st.hosts;
      }
    }
  }

  /** A hostname with a single active record gets exactly that record's fields, `hostname` aside. */
  lemma {:induction false} SoleActiveRecord(ms: seq<MachineRecord>, groups: seq<GroupRecord>, domain: string, i: int)
    requires MachinePass(ms, groups, domain).Ok?
    requires 0 <= i < |ms| && Active(ms[i]) && ms[i].hostname.Some?
    requires forall j :: 0 <= j < |ms| && j != i && Active(ms[j]) ==> ms[j].hostname != ms[i].hostname
    ensures Fqdn(ms[i].hostname.value, domain) in MachinePass(ms, groups, domain).value.hosts
    ensures MachinePass(ms, groups, domain).value.hosts[Fqdn(ms[i].hostname.value, domain)] == HostVarsOf(ms[i])
  {
    var h := ms[i].hostname.value;
    var hosts := MachinePass(ms, groups, domain).value.hosts;
    assert h in ActiveNames(ms);
    forall k | k in HostVarsOf(ms[i])
      ensures k in hosts[Fqdn(h, domain)] && hosts[Fqdn(h, domain)][k] == HostVarsOf(ms[i])[k]
    {
      LastActiveRecordWins(ms, groups, domain, i, k);
    }
    forall k | k in hosts[Fqdn(h, domain)]
      ensures k in HostVarsOf(ms[i])
    {
      HostVarsKeys(ms, groups, domain, h, k);
      var m :| m in ms && Active(m) && m.hostname == Some(h) && k in HostVarsOf(m);
      var j :| 0 <= j < |ms| && ms[j] == m;
    }
  }

  /**
    The retraction depends only on which records are inactive, not on the
    order they come in: any two orderings of the same records whose passes
    both succeed give the same groups and the same host nodes. Which orderings
    succeed can differ (`OrderDecidesFailure`).
   */
  lemma {:induction false} RetractionOrderIndependent(ms1: seq<MachineRecord>, ms2: seq<MachineRecord>, groups: seq<GroupRecord>, domain: string)
    requires multiset(ms1) == multiset(ms2)
    requires MachinePass(ms1, groups, domain).Ok? && MachinePass(ms2, groups, domain).Ok?
    ensures MachinePass(ms1, groups, domain).value.groups == MachinePass(ms2, groups, domain).value.groups
    ensures MachinePass(ms1, groups, domain).value.hosts.Keys == MachinePass(ms2, groups, domain).value.hosts.Keys
  {
    forall m ensures m in ms1 <==> m in ms2 {
      assert m in ms1 <==> m in multiset(ms1);
      assert m in ms2 <==> m in multiset(ms2);
    }
    assert InactiveNames(ms1) == InactiveNames(ms2);
    assert ActiveNames(ms1) == ActiveNames(ms2);
  }

  /**
    Whether the pass succeeds does depend on the order: a record without
    `hostname` fails only while some group still has a member, so retracting
    the last member first lets the same records through.
   */
  lemma OrderDecidesFailure()
    ensures var groups := [GroupRecord("g", ["a"])];
            var gone := MachineRecord(Some("a"), map["active" := Bool(false)]);
            var nameless := MachineRecord(None, map["active" := Bool(false)]);
            && MachinePass([gone, nameless], groups, ".x").Ok?
            && MachinePass([nameless, gone], groups, ".x").Err?
  {
    var groups := [GroupRecord("g", ["a"])];
    var gone := MachineRecord(Some("a"), map["active" := Bool(false)]);
    var nameless := MachineRecord(None, map["active" := Bool(false)]);
    assert [gone, nameless][..1] == [gone];
    assert [nameless, gone][..1] == [nameless];
    assert [gone][..0] == [] && [nameless][..0] == [];
    assert Without(["a"], {"a"}) == [];
    var emptied := RetractAll(groups, {"a"});
    assert emptied == [GroupRecord("g", [])];
    assert !AnyMembers(emptied);
    assert MachinePass([gone], groups, ".x") == Ok(PassState(map[], emptied));
    assert |groups[0].members| > 0;
    assert AnyMembers(groups);
  }

  /**
    Retraction changes member lists only: as many groups, in the same order,
    with the same names; each member list keeps every other hostname as often
    as before (`WithoutConcat` gives the order).
   */
  lemma RetractionOnlyTouchesMembers(ms: seq<MachineRecord>, groups: seq<GroupRecord>, domain: string, i: int, x: string)
    requires MachinePass(ms, groups, domain).Ok?
    requires 0 <= i < |groups|
    ensures |MachinePass(ms, groups, domain).value.groups| == |groups|
    ensures MachinePass(ms, groups, domain).value.groups[i].name == groups[i].name
    ensures multiset(MachinePass(ms, groups, domain).value.groups[i].members)[x]
         == if x in InactiveNames(ms) then 0 else multiset(groups[i].members)[x]
  {
    WithoutCount(groups[i].members, InactiveNames(ms), x);
  }

  /*
   * The group pass: the loop over the (retracted) groups
   */

  /** The group nodes: one per group record, whatever its member list. */
  function GroupNodes(gs: seq<GroupRecord>): (r: set<string>)
    ensures r == set g | g in gs :: g.name
    decreases |gs|
  {
    if |gs| == 0 then {}
    else
      var p := gs[..|gs| - 1];
      assert gs == p + [gs[|gs| - 1]];
      GroupNodes(p) + {gs[|gs| - 1].name}
  }

  /** The edges of one group: one per member, to `member ++ domain`. */
  function GroupEdges(name: string, members: seq<string>, domain: string): (r: set<Edge>)
    ensures r == set h | h in members :: Edge(name, Fqdn(h, domain))
    decreases |members|
  {
    if |members| == 0 then {}
    else
      var p := members[..|members| - 1];
      assert members == p + [members[|members| - 1]];
      GroupEdges(name, p, domain) + {Edge(name, Fqdn(members[|members| - 1], domain))}
  }

  /** The edges of all groups; a member need not be a host node. */
  function MemberEdges(gs: seq<GroupRecord>, domain: string): (r: set<Edge>)
    ensures r == set g, h | g in gs && h in g.members :: Edge(g.name, Fqdn(h, domain))
    decreases |gs|
  {
    if |gs| == 0 then {}
    else
      var p := gs[..|gs| - 1];
      assert gs == p + [gs[|gs| - 1]];
      MemberEdges(p, domain) + GroupEdges(gs[|gs| - 1].name, gs[|gs| - 1].members, domain)
  }

  /** Retraction leaves the group names alone. */
  lemma RetractedNames(gs: seq<GroupRecord>, dead: set<string>)
    ensures (set g | g in RetractAll(gs, dead) :: g.name) == set g | g in gs :: g.name
  {
  }

  /** The edges left after retraction: one per member outside `dead`. */
  lemma RetractedEdges(gs: seq<GroupRecord>, dead: set<string>, domain: string)
    ensures MemberEdges(RetractAll(gs, dead), domain)
         == set g, h | g in gs && h in g.members && h !in dead :: Edge(g.name, Fqdn(h, domain))
  {
  }

  /*
   * The whole document-style reconciliation
   */

  /**
    Builds the inventory graph from the group and machine collections. An
    empty group collection is reported first, then an empty machine
    collection; a record whose missing `hostname` gets looked up fails the
    build; otherwise the graph is returned whole.
   */
  function BuildFromDocuments(groups: seq<GroupRecord>, machines: seq<MachineRecord>, domain: string): (r: Result<Graph>)
    ensures |groups| == 0 ==> r == Err(EmptyDataset(GroupSet))
    ensures |groups| > 0 && |machines| == 0 ==> r == Err(EmptyDataset(MachineSet))
    ensures |groups| > 0 && |machines| > 0 ==>
              (r.Err? <==> exists i :: 0 <= i < |machines| && FailsAt(machines, groups, i))
    ensures r.Err? && |groups| > 0 && |machines| > 0 ==> r.error == MissingField("hostname")
    ensures |groups| > 0 && |machines| > 0 && (forall i :: 0 <= i < |machines| ==> machines[i].hostname.Some?) ==> r.Ok?
    ensures r.Ok? ==> r.value.Hosts() == Qualify(ActiveNames(machines), domain)
    ensures r.Ok? ==> MachinePass(machines, groups, domain).Ok? && r.value.hostVars == MachinePass(machines, groups, domain).value.hosts
    ensures r.Ok? ==> forall fq :: fq in r.value.hostVars ==> "hostname" !in r.value.hostVars[fq]
    ensures r.Ok? ==> r.value.groups == set g | g in groups :: g.name
    ensures r.Ok? ==>
              r.value.edges == set g, h | g in groups && h in g.members && h !in InactiveNames(machines)
                                 :: Edge(g.name, Fqdn(h, domain))
  {
    if |groups| == 0 then Err(EmptyDataset(GroupSet))
    else if |machines| == 0 then Err(EmptyDataset(MachineSet))
    else
      MachinePassFails(machines, groups, domain);
      match MachinePass(machines, groups, domain)
      case Err(e) => Err(e)
      case Ok(st) =>
        RetractedNames(groups, InactiveNames(machines));
        RetractedEdges(groups, InactiveNames(machines), domain);
        Ok(Graph(st.hosts, GroupNodes(st.groups), MemberEdges(st.groups, domain)))
  }

  /**
    A hostname with no active record never becomes a host node, and an
    inactive record does not remove the host an active record of the same
    name created.
   */
  lemma HostNodesComeFromActiveRecords(groups: seq<GroupRecord>, machines: seq<MachineRecord>, domain: string, h: string)
    ensures BuildFromDocuments(groups, machines, domain).Ok? ==>
              (Fqdn(h, domain) in BuildFromDocuments(groups, machines, domain).value.Hosts()
               <==> exists i :: 0 <= i < |machines| && Active(machines[i]) && machines[i].hostname == Some(h))
  {
    QualifyMembership(ActiveNames(machines), h, domain);
    if h in ActiveNames(machines) {
      var m :| m in machines && Active(m) && m.hostname == Some(h);
      var i :| 0 <= i < |machines| && machines[i] == m;
    }
  }

  /**
    Membership edges are not checked against the host nodes: a surviving
    member with no active record gives an edge to a fully-qualified name that
    is not a host.
   */
  lemma DanglingEdge(groups: seq<GroupRecord>, machines: seq<MachineRecord>, domain: string, g: GroupRecord, h: string)
    requires g in groups && h in g.members
    requires forall m :: m in machines ==> m.hostname != Some(h)
    ensures BuildFromDocuments(groups, machines, domain).Ok? ==>
              && Edge(g.name, Fqdn(h, domain)) in BuildFromDocuments(groups, machines, domain).value.edges
              && Fqdn(h, domain) !in BuildFromDocuments(groups, machines, domain).value.Hosts()
  {
    QualifyMembership(ActiveNames(machines), h, domain);
  }

  /** One active machine `a` in group `g`, domain `.x`: host `a.x`, whose only variable is `active`, member of `g`. */
  lemma ActiveMachineExample()
    ensures var r := BuildFromDocuments([GroupRecord("g", ["a"])],
                                        [MachineRecord(Some("a"), map["active" := Bool(true)])], ".x");
            && r.Ok?
            && r.value.hostVars == map["a.x" := map["active" := Bool(true)]]
            && r.value.groups == {"g"}
            && r.value.Members("g") == {"a.x"}
  {
    var ms := [MachineRecord(Some("a"), map["active" := Bool(true)])];
    var r := BuildFromDocuments([GroupRecord("g", ["a"])], ms, ".x");
    assert ActiveNames(ms) == {"a"};
    assert InactiveNames(ms) == {};
    assert Fqdn("a", ".x") == "a.x";
    assert Qualify({"a"}, ".x") == {"a.x"};
    SoleActiveRecord(ms, [GroupRecord("g", ["a"])], ".x", 0);
    assert HostVarsOf(ms[0]) == map["active" := Bool(true)];
    var hosts := MachinePass(ms, [GroupRecord("g", ["a"])], ".x").value.hosts;
    assert hosts.Keys == {"a.x"};
    assert r.value.hostVars == hosts;
    assert r.value.edges == {Edge("g", "a.x")};
  }

  /** The same machine marked inactive: no host, and `g` survives with no members. */
  lemma InactiveMachineExample()
    ensures var r := BuildFromDocuments([GroupRecord("g", ["a"])],
                                        [MachineRecord(Some("a"), map["active" := Bool(false)])], ".x");
            && r.Ok?
            && r.value.Hosts() == {}
            && r.value.groups == {"g"}
            && r.value.Members("g") == {}
  {
    var ms := [MachineRecord(Some("a"), map["active" := Bool(false)])];
    assert ActiveNames(ms) == {};
    assert InactiveNames(ms) == {"a"};
  }
}
