/**
  Relational-style reconciliation: the PostgreSQL-backed inventory plugin.

  The rows of a join of machines with machine groups are bucketed by group
  name, a null group becoming `"ungrouped"`; every bucket becomes a group node,
  and every hostname in it that is not on the deny list becomes a host
  `hostname ++ domain` and a member of that group.
 */
module LabPsql {
  import opened Inventory

  /** The width of a row that is not a pair; a width of 2 is always a `Pair`. */
  type OtherWidth = w: nat | w != 2 witness 0

  /** One fetched row: a (hostname, group-or-null) pair, or a row whose width is not 2. */
  datatype Row = Pair(hostname: string, group: Option<string>) | Malformed(width: OtherWidth)

  /**
    The bucket a group column goes to: a null group is `"ungrouped"`, so it
    shares its bucket with a group of that name; any other group keeps its name.
   */
  function GroupKey(group: Option<string>): (r: string)
    ensures r == "ungrouped" <==> group == None || group == Some("ungrouped")
    ensures group.Some? ==> r == group.value
  {
    match group
    case None => "ungrouped"
    case Some(g) => g
  }

  /** One entry of the grouping: a group name and the hostnames listed under it, in row order. */
  datatype Bucket = Bucket(name: string, hosts: seq<string>)

  function Names(bs: seq<Bucket>): set<string> {
    set b | b in bs :: b.name
  }

  /** The bucket names in insertion order (the order of the Python dictionary's keys). */
  function KeyOrder(bs: seq<Bucket>): seq<string> {
    seq(|bs|, i requires 0 <= i < |bs| => bs[i].name)
  }

  predicate DistinctNames(bs: seq<Bucket>) {
    forall i, j :: 0 <= i < j < |bs| ==> bs[i].name != bs[j].name
  }

  /** The hostnames listed under `k`; empty when there is no such bucket. */
  function Lookup(bs: seq<Bucket>, k: string): seq<string> {
    if |bs| == 0 then []
    else if bs[0].name == k then bs[0].hosts
    else Lookup(bs[1..], k)
  }

  /** The number of hostnames over all buckets. */
  function Total(bs: seq<Bucket>): nat {
    if |bs| == 0 then 0 else |bs[0].hosts| + Total(bs[1..])
  }

  /*
   * Reference definitions over the rows
   */

  /** The rows of width 2. */
  function WellFormed(rows: seq<Row>): seq<Row> {
    if |rows| == 0 then []
    else (if rows[0].Pair? then [rows[0]] else []) + WellFormed(rows[1..])
  }

  /** The hostnames of the well-formed rows whose group resolves to `k`, in row order. */
  function HostsUnder(rows: seq<Row>, k: string): seq<string> {
    if |rows| == 0 then []
    else (if rows[0].Pair? && GroupKey(rows[0].group) == k then [rows[0].hostname] else []) + HostsUnder(rows[1..], k)
  }

  /** The group names the well-formed rows resolve to. */
  function RowKeys(rows: seq<Row>): set<string> {
    set row | row in rows && row.Pair? :: GroupKey(row.group)
  }

  lemma {:induction false} WellFormedSnoc(rows: seq<Row>, x: Row)
    ensures WellFormed(rows + [x]) == WellFormed(rows) + (if x.Pair? then [x] else [])
    decreases |rows|
  {
    var tail: seq<Row> := if x.Pair? then [x] else [];
    if |rows| == 0 {
      assert rows + [x] == [x];
      assert WellFormed([x]) == tail + WellFormed([]);
    } else {
      var head: seq<Row> := if rows[0].Pair? then [rows[0]] else [];
      assert (rows + [x])[0] == rows[0];
      assert (rows + [x])[1..] == rows[1..] + [x];
      WellFormedSnoc(rows[1..], x);
      calc {
        WellFormed(rows + [x]);
        head + WellFormed(rows[1..] + [x]);
        head + (WellFormed(rows[1..]) + tail);
        (head + WellFormed(rows[1..])) + tail;
        WellFormed(rows) + tail;
      }
    }
  }

  lemma {:induction false} HostsUnderSnoc(rows: seq<Row>, x: Row, k: string)
    ensures HostsUnder(rows + [x], k)
         == HostsUnder(rows, k) + (if x.Pair? && GroupKey(x.group) == k then [x.hostname] else [])
    decreases |rows|
  {
    var tail: seq<string> := if x.Pair? && GroupKey(x.group) == k then [x.hostname] else [];
    if |rows| == 0 {
      assert rows + [x] == [x];
      assert HostsUnder([x], k) == tail + HostsUnder([], k);
    } else {
      var head: seq<string> := if rows[0].Pair? && GroupKey(rows[0].group) == k then [rows[0].hostname] else [];
      assert (rows + [x])[0] == rows[0];
      assert (rows + [x])[1..] == rows[1..] + [x];
      HostsUnderSnoc(rows[1..], x, k);
      calc {
        HostsUnder(rows + [x], k);
        head + HostsUnder(rows[1..] + [x], k);
        head + (HostsUnder(rows[1..], k) + tail);
        (head + HostsUnder(rows[1..], k)) + tail;
        HostsUnder(rows, k) + tail;
      }
    }
  }

  /** `h` is listed under `k` exactly when some well-formed row pairs `h` with a group resolving to `k`. */
  lemma {:induction false} HostsUnderMembership(rows: seq<Row>, k: string, h: string)
    ensures h in HostsUnder(rows, k)
        <==> exists row :: row in rows && row.Pair? && row.hostname == h && GroupKey(row.group) == k
    decreases |rows|
  {
    if |rows| > 0 {
      HostsUnderMembership(rows[1..], k, h);
      assert rows == [rows[0]] + rows[1..];
    }
  }

  /*
   * The bucketing loop
   */

  lemma BucketsCons(b: Bucket, bs: seq<Bucket>)
    ensures KeyOrder([b] + bs) == [b.name] + KeyOrder(bs)
    ensures Names([b] + bs) == {b.name} + Names(bs)
  {
    assert forall x :: x in [b] + bs <==> x == b || x in bs;
  }

  /**
    Appends `h` to the bucket named `k`, opening a new bucket at the end when
    there is none: the names gain `k`, and the lists gain one hostname.
   */
  function Append(bs: seq<Bucket>, k: string, h: string): (r: seq<Bucket>)
    ensures Names(r) == Names(bs) + {k}
    ensures Total(r) == Total(bs) + 1
    decreases |bs|
  {
    if |bs| == 0 then
      assert Names([Bucket(k, [h])]) == {k};
      [Bucket(k, [h])]
    else
      assert bs == [bs[0]] + bs[1..];
      BucketsCons(bs[0], bs[1..]);
      if bs[0].name == k then
        var r := [Bucket(k, bs[0].hosts + [h])] + bs[1..];
        BucketsCons(r[0], bs[1..]);
        assert r[1..] == bs[1..];
        r
      else
        var r := [bs[0]] + Append(bs[1..], k, h);
        BucketsCons(bs[0], Append(bs[1..], k, h));
        assert r[1..] == Append(bs[1..], k, h);
        r
  }

  /** Existing keys keep their place; a new key goes last, as in an insertion-ordered dictionary. */
  lemma {:induction false} AppendKeyOrder(bs: seq<Bucket>, k: string, h: string)
    ensures KeyOrder(Append(bs, k, h)) == if k in Names(bs) then KeyOrder(bs) else KeyOrder(bs) + [k]
    ensures Names(Append(bs, k, h)) == Names(bs) + {k}
    decreases |bs|
  {
    if |bs| == 0 {
      assert Names([Bucket(k, [h])]) == {k};
    } else {
      assert bs == [bs[0]] + bs[1..];
      BucketsCons(bs[0], bs[1..]);
      if bs[0].name == k {
        BucketsCons(Bucket(k, bs[0].hosts + [h]), bs[1..]);
      } else {
        AppendKeyOrder(bs[1..], k, h);
        BucketsCons(bs[0], Append(bs[1..], k, h));
      }
    }
  }

  /** Appending adds exactly one hostname, at the end of `k`'s list, and touches no other list. */
  lemma {:induction false} AppendLookup(bs: seq<Bucket>, k: string, h: string, k': string)
    ensures Total(Append(bs, k, h)) == Total(bs) + 1
    ensures Lookup(Append(bs, k, h), k') == if k' == k then Lookup(bs, k) + [h] else Lookup(bs, k')
    decreases |bs|
  {
    if |bs| > 0 {
      if bs[0].name == k {
        assert ([Bucket(k, bs[0].hosts + [h])] + bs[1..])[1..] == bs[1..];
      } else {
        AppendLookup(bs[1..], k, h, k');
        assert ([bs[0]] + Append(bs[1..], k, h))[1..] == Append(bs[1..], k, h);
      }
    }
  }

  lemma AppendDistinct(bs: seq<Bucket>, k: string, h: string)
    requires DistinctNames(bs)
    ensures DistinctNames(Append(bs, k, h))
  {
    AppendKeyOrder(bs, k, h);
    var r := Append(bs, k, h);
    forall i, j | 0 <= i < j < |r|
      ensures r[i].name != r[j].name
    {
      assert KeyOrder(r)[i] == r[i].name && KeyOrder(r)[j] == r[j].name;
      if k !in Names(bs) && j == |bs| {
        assert KeyOrder(bs)[i] == bs[i].name;
        assert bs[i] in bs;
      } else {
        assert KeyOrder(bs)[i] == bs[i].name && KeyOrder(bs)[j] == bs[j].name;
      }
    }
  }

  /**
    The loop of the fetch: rows taken in order, those whose width is not 2
    skipped. The buckets are named by the resolved groups of the well-formed
    rows, and hold one hostname per well-formed row.
   */
  function GroupRows(rows: seq<Row>): (r: seq<Bucket>)
    ensures Names(r) == RowKeys(rows)
    ensures Total(r) == |WellFormed(rows)|
    decreases |rows|
  {
    if |rows| == 0 then []
    else
      var p := rows[..|rows| - 1];
      var x := rows[|rows| - 1];
      assert rows == p + [x];
      WellFormedSnoc(p, x);
      match x
      case Malformed(_) =>
        assert RowKeys(rows) == RowKeys(p);
        GroupRows(p)
      case Pair(h, g) =>
        assert RowKeys(rows) == RowKeys(p) + {GroupKey(g)};
        Append(GroupRows(p), GroupKey(g), h)
  }

  /**
    The grouping has one bucket per resolved group name of a well-formed row,
    and no name twice.
   */
  lemma {:induction false} GroupRowsNames(rows: seq<Row>)
    ensures DistinctNames(GroupRows(rows))
    ensures Names(GroupRows(rows)) == RowKeys(rows)
    decreases |rows|
  {
    if |rows| > 0 {
      var p := rows[..|rows| - 1];
      var x := rows[|rows| - 1];
      assert rows == p + [x];
      GroupRowsNames(p);
      if x.Pair? {
        AppendDistinct(GroupRows(p), GroupKey(x.group), x.hostname);
      }
    }
  }

  /**
    Each well-formed row appends its hostname exactly once, to its group's
    list, in row order: the list under `k` is the rows' hostnames resolving to
    `k`, and the lists hold as many hostnames as there are well-formed rows.
   */
  lemma {:induction false} GroupRowsLists(rows: seq<Row>, k: string)
    ensures Lookup(GroupRows(rows), k) == HostsUnder(rows, k)
    ensures Total(GroupRows(rows)) == |WellFormed(rows)|
    decreases |rows|
  {
    if |rows| > 0 {
      var p := rows[..|rows| - 1];
      var x := rows[|rows| - 1];
      assert rows == p + [x];
      GroupRowsLists(p, k);
      WellFormedSnoc(p, x);
      HostsUnderSnoc(p, x, k);
      if x.Pair? {
        AppendLookup(GroupRows(p), GroupKey(x.group), x.hostname, k);
      }
    }
  }

  /** Rows whose width is not 2 contribute nothing: the grouping is that of the well-formed rows alone. */
  lemma {:induction false} MalformedRowsIgnored(rows: seq<Row>)
    ensures GroupRows(rows) == GroupRows(WellFormed(rows))
    decreases |rows|
  {
    if |rows| > 0 {
      var p := rows[..|rows| - 1];
      var x := rows[|rows| - 1];
      assert rows == p + [x];
      assert rows[..|rows| - 1] == p;
      MalformedRowsIgnored(p);
      WellFormedSnoc(p, x);
      if x.Pair? {
        var w := WellFormed(p) + [x];
        assert w[..|w| - 1] == WellFormed(p);
        assert w[|w| - 1] == x;
        assert GroupRows(w) == Append(GroupRows(WellFormed(p)), GroupKey(x.group), x.hostname);
        assert GroupRows(rows) == Append(GroupRows(p), GroupKey(x.group), x.hostname);
      } else {
        assert WellFormed(p) + [] == WellFormed(p);
        assert GroupRows(rows) == GroupRows(p);
      }
    }
  }

  /** Under distinct names, a bucket's list is what looking its name up returns. */
  lemma {:induction false} LookupFinds(bs: seq<Bucket>, b: Bucket)
    requires DistinctNames(bs) && b in bs
    ensures Lookup(bs, b.name) == b.hosts
    decreases |bs|
  {
    if bs[0] != b {
      assert b in bs[1..];
      var j :| 0 <= j < |bs[1..]| && bs[1..][j] == b;
      assert bs[j + 1] == b;
      LookupFinds(bs[1..], b);
    }
  }

  /** `h` is listed in the bucket `k` exactly when a well-formed row pairs `h` with a group resolving to `k`. */
  lemma BucketMembership(rows: seq<Row>, k: string, h: string)
    ensures (exists b :: b in GroupRows(rows) && b.name == k && h in b.hosts)
        <==> exists row :: row in rows && row.Pair? && row.hostname == h && GroupKey(row.group) == k
  {
    var bs := GroupRows(rows);
    GroupRowsNames(rows);
    GroupRowsLists(rows, k);
    HostsUnderMembership(rows, k, h);
    if exists b :: b in bs && b.name == k && h in b.hosts {
      var b :| b in bs && b.name == k && h in b.hosts;
      LookupFinds(bs, b);
    }
    if exists row :: row in rows && row.Pair? && row.hostname == h && GroupKey(row.group) == k {
      var row :| row in rows && row.Pair? && row.hostname == h && GroupKey(row.group) == k;
      assert k in RowKeys(rows);
      var b :| b in bs && b.name == k;
      LookupFinds(bs, b);
    }
  }

  /** No group name resolves exactly when no row is well-formed. */
  lemma RowKeysEmpty(rows: seq<Row>)
    ensures RowKeys(rows) == {} <==> forall row :: row in rows ==> row.Malformed?
  {
    if exists row :: row in rows && row.Pair? {
      var row :| row in rows && row.Pair?;
      assert GroupKey(row.group) in RowKeys(rows);
    }
  }

  /**
    The fetch: the grouping of the rows, or an empty-dataset error when no row
    is well-formed.
   */
  function FetchMemberships(rows: seq<Row>): (r: Result<seq<Bucket>>)
    ensures r.Err? <==> forall row :: row in rows ==> row.Malformed?
    ensures r.Err? ==> r.error == EmptyDataset(MembershipSet)
    ensures r.Ok? ==> r.value == GroupRows(rows)
    ensures r.Ok? ==> DistinctNames(r.value) && Names(r.value) == RowKeys(rows)
  {
    var bs := GroupRows(rows);
    GroupRowsNames(rows);
    RowKeysEmpty(rows);
    if |bs| == 0 then
      assert RowKeys(rows) == {};
      Err(EmptyDataset(MembershipSet))
    else
      assert bs[0] in bs;
      assert bs[0].name in RowKeys(rows);
      Ok(bs)
  }

  /*
   * The graph-building loop
   */

  /** The fully-qualified names of the listed hostnames that are not on the deny list. */
  function AllowedHosts(bs: seq<Bucket>, denyList: seq<string>, domain: string): set<string> {
    set b, h | b in bs && h in b.hosts && h !in denyList :: Fqdn(h, domain)
  }

  /** The edges from each bucket to its listed hostnames that are not on the deny list. */
  function AllowedEdges(bs: seq<Bucket>, denyList: seq<string>, domain: string): set<Edge> {
    set b, h | b in bs && h in b.hosts && h !in denyList :: Edge(b.name, Fqdn(h, domain))
  }

  lemma AllowedConcat(a: seq<Bucket>, c: seq<Bucket>, denyList: seq<string>, domain: string)
    ensures AllowedHosts(a + c, denyList, domain) == AllowedHosts(a, denyList, domain) + AllowedHosts(c, denyList, domain)
    ensures AllowedEdges(a + c, denyList, domain) == AllowedEdges(a, denyList, domain) + AllowedEdges(c, denyList, domain)
    ensures Names(a + c) == Names(a) + Names(c)
  {
    assert forall b :: b in a + c <==> b in a || b in c;
  }

  /** The fully-qualified names of the hostnames of one list that are not on the deny list. */
  function ListHosts(hs: seq<string>, denyList: seq<string>, domain: string): set<string> {
    set h | h in hs && h !in denyList :: Fqdn(h, domain)
  }

  /** The edges from one group to the hostnames of its list that are not on the deny list. */
  function ListEdges(name: string, hs: seq<string>, denyList: seq<string>, domain: string): set<Edge> {
    set h | h in hs && h !in denyList :: Edge(name, Fqdn(h, domain))
  }

  lemma AllowedSingle(b: Bucket, denyList: seq<string>, domain: string)
    ensures AllowedHosts([b], denyList, domain) == ListHosts(b.hosts, denyList, domain)
    ensures AllowedEdges([b], denyList, domain) == ListEdges(b.name, b.hosts, denyList, domain)
  {
  }

  lemma ListSnoc(name: string, hs: seq<string>, h: string, denyList: seq<string>, domain: string)
    ensures ListHosts(hs + [h], denyList, domain)
         == ListHosts(hs, denyList, domain) + (if h in denyList then {} else {Fqdn(h, domain)})
    ensures ListEdges(name, hs + [h], denyList, domain)
         == ListEdges(name, hs, denyList, domain) + (if h in denyList then {} else {Edge(name, Fqdn(h, domain))})
  {
    assert forall x :: x in hs + [h] <==> x in hs || x == h;
  }

  /** One bucket's pass of the inner loop: its allowed hostnames become hosts and members. */
  method AddBucket(hostVars: map<string, Vars>, edges: set<Edge>, b: Bucket, denyList: seq<string>, domain: string)
    returns (hostVars': map<string, Vars>, edges': set<Edge>)
    requires forall fq :: fq in hostVars ==> hostVars[fq] == map[]
    ensures hostVars'.Keys == hostVars.Keys + ListHosts(b.hosts, denyList, domain)
    ensures forall fq :: fq in hostVars' ==> hostVars'[fq] == map[]
    ensures edges' == edges + ListEdges(b.name, b.hosts, denyList, domain)
  {
    hostVars', edges' := hostVars, edges;
    var j := 0;
    while j < |b.hosts|
      invariant 0 <= j <= |b.hosts|
      invariant hostVars'.Keys == hostVars.Keys + ListHosts(b.hosts[..j], denyList, domain)
      invariant forall fq :: fq in hostVars' ==> hostVars'[fq] == map[]
      invariant edges' == edges + ListEdges(b.name, b.hosts[..j], denyList, domain)
    {
      var h := b.hosts[j];
      ListSnoc(b.name, b.hosts[..j], h, denyList, domain);
      assert b.hosts[..j + 1] == b.hosts[..j] + [h];
      if h !in denyList {
        var fq := Fqdn(h, domain);
        if fq !in hostVars' {
          hostVars' := hostVars'[fq := map[]];
        }
        edges' := edges' + {Edge(b.name, fq)};
      }
      j := j + 1;
    }
    assert b.hosts[..j] == b.hosts;
  }

  /**
    The loop over the grouping: every bucket becomes a group node, even when
    all its hostnames are denied; every other hostname becomes a host without
    variables and a member of its bucket's group.
   */
  method ParseRelational(bs: seq<Bucket>, denyList: seq<string>, domain: string) returns (g: Graph)
    ensures g.groups == Names(bs)
    ensures g.Hosts() == AllowedHosts(bs, denyList, domain)
    ensures forall fq :: fq in g.hostVars ==> g.hostVars[fq] == map[]
    ensures g.edges == AllowedEdges(bs, denyList, domain)
  {
    var hostVars: map<string, Vars> := map[];
    var groups: set<string> := {};
    var edges: set<Edge> := {};
    var i := 0;
    while i < |bs|
      invariant 0 <= i <= |bs|
      invariant groups == Names(bs[..i])
      invariant hostVars.Keys == AllowedHosts(bs[..i], denyList, domain)
      invariant forall fq :: fq in hostVars ==> hostVars[fq] == map[]
      invariant edges == AllowedEdges(bs[..i], denyList, domain)
    {
      var b := bs[i];
      groups := groups + {b.name};
      hostVars, edges := AddBucket(hostVars, edges, b, denyList, domain);
      assert bs[..i + 1] == bs[..i] + [b];
      AllowedConcat(bs[..i], [b], denyList, domain);
      AllowedSingle(b, denyList, domain);
      assert Names([b]) == {b.name};
      i := i + 1;
    }
    assert bs[..i] == bs;
    g := Graph(hostVars, groups, edges);
  }

  /*
   * The whole relational-style reconciliation
   */

  /** Fully-qualified names of the well-formed rows' hostnames that are not denied. */
  function RowHosts(rows: seq<Row>, denyList: seq<string>, domain: string): set<string> {
    set row | row in rows && row.Pair? && row.hostname !in denyList :: Fqdn(row.hostname, domain)
  }

  /** One edge per well-formed row whose hostname is not denied, from its resolved group. */
  function RowEdges(rows: seq<Row>, denyList: seq<string>, domain: string): set<Edge> {
    set row | row in rows && row.Pair? && row.hostname !in denyList :: Edge(GroupKey(row.group), Fqdn(row.hostname, domain))
  }

  /** The hosts and edges the grouping yields are those its rows describe. */
  lemma AllowedFromRows(rows: seq<Row>, denyList: seq<string>, domain: string)
    ensures AllowedHosts(GroupRows(rows), denyList, domain) == RowHosts(rows, denyList, domain)
    ensures AllowedEdges(GroupRows(rows), denyList, domain) == RowEdges(rows, denyList, domain)
  {
    var bs := GroupRows(rows);
    forall e | e in AllowedEdges(bs, denyList, domain)
      ensures e in RowEdges(rows, denyList, domain) && e.host in RowHosts(rows, denyList, domain)
    {
      var b, h :| b in bs && h in b.hosts && h !in denyList && e == Edge(b.name, Fqdn(h, domain));
      BucketMembership(rows, b.name, h);
      var row :| row in rows && row.Pair? && row.hostname == h && GroupKey(row.group) == b.name;
    }
    forall e | e in RowEdges(rows, denyList, domain)
      ensures e in AllowedEdges(bs, denyList, domain) && e.host in AllowedHosts(bs, denyList, domain)
    {
      var row :| row in rows && row.Pair? && row.hostname !in denyList
              && e == Edge(GroupKey(row.group), Fqdn(row.hostname, domain));
      BucketMembership(rows, GroupKey(row.group), row.hostname);
      var b :| b in bs && b.name == GroupKey(row.group) && row.hostname in b.hosts;
    }
    forall fq | fq in AllowedHosts(bs, denyList, domain)
      ensures fq in RowHosts(rows, denyList, domain)
    {
      var b, h :| b in bs && h in b.hosts && h !in denyList && fq == Fqdn(h, domain);
      assert Edge(b.name, fq) in AllowedEdges(bs, denyList, domain);
    }
    forall fq | fq in RowHosts(rows, denyList, domain)
      ensures fq in AllowedHosts(bs, denyList, domain)
    {
      var row :| row in rows && row.Pair? && row.hostname !in denyList && fq == Fqdn(row.hostname, domain);
      assert Edge(GroupKey(row.group), fq) in RowEdges(rows, denyList, domain);
    }
  }

  /** A deny-listed hostname, matched exactly on the bare name, is never a host. */
  lemma DeniedNeverHost(rows: seq<Row>, denyList: seq<string>, domain: string, h: string)
    requires h in denyList
    ensures Fqdn(h, domain) !in RowHosts(rows, denyList, domain)
  {
    if Fqdn(h, domain) in RowHosts(rows, denyList, domain) {
      var row :| row in rows && row.Pair? && row.hostname !in denyList && Fqdn(h, domain) == Fqdn(row.hostname, domain);
      FqdnInjective(h, row.hostname, domain);
    }
  }

  /**
    Builds the inventory graph from the fetched rows: fails when no row is
    well-formed; otherwise one group node per resolved group name, and one
    host and one edge per well-formed row whose hostname is not denied. Every
    edge ends at a host node.
   */
  method BuildFromRows(rows: seq<Row>, denyList: seq<string>, domain: string) returns (r: Result<Graph>)
    ensures r.Err? <==> forall row :: row in rows ==> row.Malformed?
    ensures r.Err? ==> r.error == EmptyDataset(MembershipSet)
    ensures r.Ok? ==> r.value.groups == RowKeys(rows)
    ensures r.Ok? ==> r.value.Hosts() == RowHosts(rows, denyList, domain)
    ensures r.Ok? ==> forall fq :: fq in r.value.hostVars ==> r.value.hostVars[fq] == map[]
    ensures r.Ok? ==> r.value.edges == RowEdges(rows, denyList, domain)
    ensures r.Ok? ==> forall h :: h in denyList ==> Fqdn(h, domain) !in r.value.Hosts()
    ensures r.Ok? ==> forall e :: e in r.value.edges ==> e.host in r.value.Hosts()
  {
    var fetched := FetchMemberships(rows);
    if fetched.Err? {
      return Err(fetched.error);
    }
    var g := ParseRelational(fetched.value, denyList, domain);
    AllowedFromRows(rows, denyList, domain);
    forall h | h in denyList
      ensures Fqdn(h, domain) !in g.Hosts()
    {
      DeniedNeverHost(rows, denyList, domain, h);
    }
    return Ok(g);
  }

  /** Rows `(a, web)` and `(b, null)`: buckets `web: [a]` then `ungrouped: [b]`. */
  lemma GroupingExample()
    ensures GroupRows([Pair("a", Some("web")), Pair("b", None)]) == [Bucket("web", ["a"]), Bucket("ungrouped", ["b"])]
  {
    var rows := [Pair("a", Some("web")), Pair("b", None)];
    assert rows[..1] == [Pair("a", Some("web"))];
    assert rows[..1][..0] == [];
    assert GroupRows(rows[..1]) == [Bucket("web", ["a"])];
    assert GroupKey(None) == "ungrouped";
    assert "web" != "ungrouped";
    assert Append([Bucket("web", ["a"])], "ungrouped", "b") == [Bucket("web", ["a"])] + Append([], "ungrouped", "b");
  }
}
