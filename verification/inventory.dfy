/**
  The inventory graph shared by both inventory plugins, together with the small
  value, option and error types their record sets are made of.

  Ansible's inventory object is replaced by an immutable graph: a map from host
  fully-qualified name to that host's variables (its keys are the host nodes),
  a set of group names and a set of group-to-host membership edges.
 */
module Inventory {

  datatype Option<+T> = None | Some(value: T)

  /** A stored field value: the tagged union standing in for BSON / JSON values. */
  datatype Value =
    | Null
    | Bool(b: bool)
    | Int(i: int)
    | Str(s: string)
    | List(items: seq<Value>)

  /** Python truthiness of a value, as used by `not machine.get("active", True)`. */
  predicate Truthy(v: Value) {
    match v
    case Null => false
    case Bool(b) => b
    case Int(i) => i != 0
    case Str(s) => s != ""
    case List(xs) => xs != []
  }

  /** Host variables: field name to value. */
  type Vars = map<string, Value>

  /** The record set a failure refers to. */
  datatype DataSet = GroupSet | MachineSet | MembershipSet

  /**
    Failures of one invocation: a record set that came back empty, or a record
    lacking a field the code indexes (Python's `KeyError`).
   */
  datatype Error = EmptyDataset(which: DataSet) | MissingField(field: string)

  datatype Result<+T> = Ok(value: T) | Err(error: Error)

  /** A membership edge from a group to a host fully-qualified name. */
  datatype Edge = Edge(group: string, host: string)

  datatype Graph = Graph(hostVars: map<string, Vars>, groups: set<string>, edges: set<Edge>)
  {
    /** The host nodes. */
    function Hosts(): set<string> {
      hostVars.Keys
    }

    /** The fully-qualified names a group has edges to. */
    function Members(g: string): set<string> {
      set e | e in edges && e.group == g :: e.host
    }
  }

  /** The fully-qualified name of a bare hostname: the domain is appended verbatim. */
  function Fqdn(hostname: string, domain: string): string {
    hostname + domain
  }

  /** Appending one fixed domain never makes two different hostnames collide. */
  lemma FqdnInjective(h1: string, h2: string, domain: string)
    ensures Fqdn(h1, domain) == Fqdn(h2, domain) <==> h1 == h2
  {
    if Fqdn(h1, domain) == Fqdn(h2, domain) {
      assert |h1| == |h2|;
      assert h1 == Fqdn(h1, domain)[..|h1|];
      assert h2 == Fqdn(h2, domain)[..|h2|];
    }
  }

  /** The fully-qualified names of a set of bare hostnames. */
  function Qualify(names: set<string>, domain: string): set<string> {
    set h | h in names :: Fqdn(h, domain)
  }

  /** A fully-qualified name belongs to `Qualify(names, domain)` exactly when its bare name is in `names`. */
  lemma QualifyMembership(names: set<string>, h: string, domain: string)
    ensures Fqdn(h, domain) in Qualify(names, domain) <==> h in names
  {
    if Fqdn(h, domain) in Qualify(names, domain) {
      var h' :| h' in names && Fqdn(h', domain) == Fqdn(h, domain);
      FqdnInjective(h', h, domain);
    }
  }
}
