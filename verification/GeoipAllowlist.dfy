/** canonicalizeExisting (server/src/models/geoip-ip-allowlist.js): stored networks healed at boot. */
module GeoipAllowlist {
  import opened Options
  import AddressText

  /** A stored row; reason "" is none. */
  datatype Row = Row(id: nat, value: string, reason: string)

  /** canonicalizeIpOrCidr: what it returns is its own canonical form. */
  type Canon = string -> Option<string>

  ghost predicate IsCanon(canon: Canon) {
    forall v :: canon(v).Some? ==> canon(canon(v).value) == canon(v)
  }

  /** The allowlist's own canonicaliser is one. */
  lemma AllowlistIsCanon()
    ensures IsCanon(AddressText.CanonicalizeIpOrCidr)
  {
    hide AddressText.CanonicalizeIpOrCidr;
    forall v: string
      ensures var c := AddressText.CanonicalizeIpOrCidr(v); c.Some? ==> AddressText.CanonicalizeIpOrCidr(c.value) == c
    {
      AddressText.CanonicalIsItsOwn(v);
    }
  }

  ghost predicate DistinctIds(rows: seq<Row>) {
    forall i, j :: 0 <= i < j < |rows| ==> rows[i].id != rows[j].id
  }

  /** UNIQUE(value) */
  ghost predicate UniqueValues(rows: seq<Row>) {
    forall i, j :: 0 <= i < j < |rows| ==> rows[i].value != rows[j].value
  }

  ghost predicate Sound(canon: Canon, rows: seq<Row>) {
    IsCanon(canon) && DistinctIds(rows) && UniqueValues(rows)
  }

  predicate InGroup(canon: Canon, r: Row, c: string) {
    canon(r.value) == Some(c)
  }

  /** The rows of one network, oldest first. */
  function Group(canon: Canon, rows: seq<Row>, c: string): (g: seq<Row>)
    ensures forall r :: r in g <==> r in rows && InGroup(canon, r, c)
  {
    if rows == [] then []
    else
      var before := Group(canon, rows[..|rows| - 1], c);
      var last := rows[|rows| - 1];
      assert rows == rows[..|rows| - 1] + [last];
      if InGroup(canon, last, c) then before + [last] else before
  }

  /** The first reason given in a group, "" when none is. */
  function FirstReason(g: seq<Row>): string {
    if g == [] then "" else if g[0].reason != "" then g[0].reason else FirstReason(g[1..])
  }

  /** The networks present, in the order of their oldest rows. */
  function Networks(canon: Canon, rows: seq<Row>): (ns: seq<string>)
    ensures forall c :: c in ns <==> exists r :: r in rows && InGroup(canon, r, c)
    ensures forall i, j :: 0 <= i < j < |ns| ==> ns[i] != ns[j]
  {
    if rows == [] then []
    else
      var before := Networks(canon, rows[..|rows| - 1]);
      var last := rows[|rows| - 1];
      assert rows == rows[..|rows| - 1] + [last];
      assert forall c :: (exists r :: r in rows && InGroup(canon, r, c)) <==>
                         ((exists r :: r in rows[..|rows| - 1] && InGroup(canon, r, c)) || InGroup(canon, last, c));
      if canon(last.value).Some? && canon(last.value).value !in before
      then before + [canon(last.value).value] else before
  }

  /** A row after the networks in `done` were rewritten; `all` is the table at the start. */
  function Shown(canon: Canon, all: seq<Row>, done: set<string>, r: Row): Row {
    var c := canon(r.value);
    if c.Some? && c.value in done then Row(r.id, c.value, FirstReason(Group(canon, all, c.value))) else r
  }

  /** The table once the ids in `gone` are deleted and the networks in `done` rewritten. */
  function View(canon: Canon, all: seq<Row>, rows: seq<Row>, done: set<string>, gone: set<nat>): seq<Row> {
    if rows == [] then []
    else
      var before := View(canon, all, rows[..|rows| - 1], done, gone);
      var last := rows[|rows| - 1];
      if last.id in gone then before else before + [Shown(canon, all, done, last)]
  }

  /** A younger row of a network in `done`. */
  predicate Dropped(canon: Canon, all: seq<Row>, done: set<string>, r: Row) {
    var c := canon(r.value);
    c.Some? && c.value in done && var g := Group(canon, all, c.value); g != [] && g[0] != r
  }

  function Gone(canon: Canon, all: seq<Row>, done: set<string>): set<nat> {
    set r | r in all && Dropped(canon, all, done, r) :: r.id
  }

  function Ids(rows: seq<Row>): set<nat> {
    set r | r in rows :: r.id
  }

  function NetworkSet(canon: Canon, rows: seq<Row>): set<string> {
    set c | c in Networks(canon, rows)
  }

  /** The healed table: each network once, canonical, under its oldest row. */
  function Healed(canon: Canon, rows: seq<Row>): seq<Row> {
    View(canon, rows, rows, NetworkSet(canon, rows), Gone(canon, rows, NetworkSet(canon, rows)))
  }

  // ---- Deleting and rewriting by id ----

  function Without(rows: seq<Row>, id: nat): (kept: seq<Row>)
    ensures forall r :: r in kept <==> r in rows && r.id != id
  {
    if rows == [] then []
    else
      var before := Without(rows[..|rows| - 1], id);
      assert rows == rows[..|rows| - 1] + [rows[|rows| - 1]];
      if rows[|rows| - 1].id == id then before else before + [rows[|rows| - 1]]
  }

  function With(rows: seq<Row>, id: nat, value: string, reason: string): seq<Row> {
    seq(|rows|, i requires 0 <= i < |rows| => if rows[i].id == id then Row(id, value, reason) else rows[i])
  }

  lemma {:induction false} ViewWithout(canon: Canon, all: seq<Row>, rows: seq<Row>, done: set<string>, gone: set<nat>,
                                       id: nat)
    ensures Without(View(canon, all, rows, done, gone), id) == View(canon, all, rows, done, gone + {id})
  {
    if rows != [] {
      var n := |rows| - 1;
      ViewWithout(canon, all, rows[..n], done, gone, id);
      var before := View(canon, all, rows[..n], done, gone);
      if rows[n].id !in gone {
        assert (before + [Shown(canon, all, done, rows[n])])[..|before|] == before;
      }
    }
  }

  /** Rewriting the keeper of a network whose duplicates are gone. */
  lemma {:induction false} ViewWith(canon: Canon, all: seq<Row>, rows: seq<Row>, done: set<string>, gone: set<nat>,
                                    keeper: Row, c: string)
    requires c !in done && InGroup(canon, keeper, c)
    requires forall r :: r in rows && InGroup(canon, r, c) && r.id !in gone ==> r == keeper
    requires forall r :: r in rows && r.id == keeper.id ==> r == keeper
    ensures With(View(canon, all, rows, done, gone), keeper.id, c, FirstReason(Group(canon, all, c)))
         == View(canon, all, rows, done + {c}, gone)
  {
    if rows != [] {
      var n := |rows| - 1;
      assert rows == rows[..n] + [rows[n]];
      ViewWith(canon, all, rows[..n], done, gone, keeper, c);
    }
  }

  lemma {:induction false} ViewHolds(canon: Canon, all: seq<Row>, rows: seq<Row>, done: set<string>, gone: set<nat>)
    ensures forall s :: s in View(canon, all, rows, done, gone) <==>
              exists r :: r in rows && r.id !in gone && s == Shown(canon, all, done, r)
  {
    if rows != [] {
      ViewHolds(canon, all, rows[..|rows| - 1], done, gone);
      assert rows == rows[..|rows| - 1] + [rows[|rows| - 1]];
    }
  }

  lemma {:induction false} ViewSame(canon: Canon, all: seq<Row>, rows: seq<Row>, done: set<string>, gone: set<nat>)
    requires forall r :: r in rows ==> r.id !in gone && Shown(canon, all, done, r) == r
    ensures View(canon, all, rows, done, gone) == rows
  {
    if rows != [] {
      assert rows == rows[..|rows| - 1] + [rows[|rows| - 1]];
      ViewSame(canon, all, rows[..|rows| - 1], done, gone);
    }
  }

  lemma {:induction false} ViewIds(canon: Canon, all: seq<Row>, rows: seq<Row>, done: set<string>, gone: set<nat>)
    requires DistinctIds(rows)
    ensures DistinctIds(View(canon, all, rows, done, gone))
  {
    if rows != [] {
      var n := |rows| - 1;
      ViewIds(canon, all, rows[..n], done, gone);
      ViewHolds(canon, all, rows[..n], done, gone);
      assert forall s :: s in View(canon, all, rows[..n], done, gone) ==> s.id != rows[n].id;
    }
  }

  lemma {:induction false} WithoutSound(canon: Canon, rows: seq<Row>, id: nat)
    requires Sound(canon, rows)
    ensures Sound(canon, Without(rows, id))
  {
    hide IsCanon;
    if rows != [] {
      var n := |rows| - 1;
      WithoutSound(canon, rows[..n], id);
      assert forall r :: r in Without(rows[..n], id) ==> r.id != rows[n].id && r.value != rows[n].value;
    }
  }

  lemma {:induction false} GroupIds(canon: Canon, rows: seq<Row>, c: string)
    requires DistinctIds(rows)
    ensures DistinctIds(Group(canon, rows, c))
  {
    if rows != [] {
      var n := |rows| - 1;
      GroupIds(canon, rows[..n], c);
      assert forall r :: r in Group(canon, rows[..n], c) ==> r.id != rows[n].id;
    }
  }

  lemma {:induction false} FirstReasonNext(g: seq<Row>, j: nat)
    requires 0 < j < |g|
    ensures FirstReason(g[..j + 1]) == if FirstReason(g[..j]) != "" then FirstReason(g[..j]) else g[j].reason
  {
    if j == 1 {
      assert g[..2][1..] == [g[1]] && g[..1][1..] == [] && [g[1]][1..] == [];
      assert FirstReason([g[1]]) == g[1].reason;
    } else if g[0].reason == "" {
      assert g[1..][..j] == g[..j + 1][1..] && g[1..][..j - 1] == g[..j][1..];
      FirstReasonNext(g[1..], j - 1);
    }
  }

  /** Deleting a group's younger rows is what one more finished network means. */
  lemma GoneNext(canon: Canon, all: seq<Row>, done: set<string>, c: string)
    requires Sound(canon, all) && Group(canon, all, c) != [] && c !in done
    ensures Gone(canon, all, done + {c}) == Gone(canon, all, done) + Ids(Group(canon, all, c)[1..])
  {
    hide Group;
    var g := Group(canon, all, c);
    GroupIds(canon, all, c);
    assert g == [g[0]] + g[1..];
    assert forall r :: r in g[1..] <==> r in g && r != g[0];
    forall r | r in all
      ensures Dropped(canon, all, done + {c}, r) <==> Dropped(canon, all, done, r) || r in g[1..]
    {}
    assert forall r :: r in g[1..] ==> r in all;
  }

  /** With its younger rows gone, only the keeper can hold a network in any spelling. */
  lemma KeeperAlone(canon: Canon, all: seq<Row>, done: set<string>, c: string)
    requires Sound(canon, all) && Group(canon, all, c) != [] && c !in done
    ensures var keeper, gone := Group(canon, all, c)[0], Gone(canon, all, done + {c});
            && (forall r :: r in all && InGroup(canon, r, c) && r.id !in gone ==> r == keeper)
            && (forall r :: r in all && r.id == keeper.id ==> r == keeper)
            && forall s :: s in View(canon, all, all, done, gone) && s.id != keeper.id ==> s.value != c
  {
    hide Group, View;
    var keeper, gone := Group(canon, all, c)[0], Gone(canon, all, done + {c});
    assert keeper in all && canon(c) == Some(c);
    forall r | r in all && InGroup(canon, r, c) && r.id !in gone
      ensures r == keeper
    {
      assert !Dropped(canon, all, done + {c}, r);
    }
    forall s | s in View(canon, all, all, done, gone) && s.id != keeper.id
      ensures s.value != c
    {
      ViewHolds(canon, all, all, done, gone);
      var r :| r in all && r.id !in gone && s == Shown(canon, all, done, r);
    }
  }

  lemma KeeperShown(canon: Canon, all: seq<Row>, done: set<string>, c: string)
    requires Sound(canon, all) && Group(canon, all, c) != [] && c !in done
    ensures Group(canon, all, c)[0] in View(canon, all, all, done, Gone(canon, all, done + {c}))
  {
    hide Group, View;
    var keeper := Group(canon, all, c)[0];
    assert keeper in Group(canon, all, c);
    NotGone(canon, all, done + {c}, keeper);
    assert keeper == Shown(canon, all, done, keeper);
    ViewHolds(canon, all, all, done, Gone(canon, all, done + {c}));
  }

  lemma Start(canon: Canon, all: seq<Row>)
    ensures View(canon, all, all, {}, {}) == all && Gone(canon, all, {}) == {}
  {
    ViewSame(canon, all, all, {}, {});
  }

  lemma NextDupe(g: seq<Row>, j: nat)
    requires 0 < j < |g|
    ensures g[1..j + 1] == g[1..j] + [g[j]] && Ids(g[1..j + 1]) == Ids(g[1..j]) + {g[j].id}
  {
    assert g[1..j + 1] == g[1..j] + [g[j]];
  }

  lemma OneReason(g: seq<Row>)
    ensures g != [] ==> FirstReason(g[..1]) == g[0].reason
  {}

  lemma WithSame(canon: Canon, rows: seq<Row>, r: Row)
    requires Sound(canon, rows) && r in rows
    ensures With(rows, r.id, r.value, r.reason) == rows
  {
    var i :| 0 <= i < |rows| && rows[i] == r;
    assert forall j :: 0 <= j < |rows| && rows[j].id == r.id ==> j == i;
  }

  // ---- What the pass promises ----

  /** The row left for a network: the oldest, canonical, with the first reason any of its rows had. */
  function Kept(canon: Canon, rows: seq<Row>, c: string): Row
    requires c in Networks(canon, rows)
  {
    var g := Group(canon, rows, c);
    Row(g[0].id, c, FirstReason(g))
  }

  /** The healed table is the unparseable rows as they were and one row for each network present. */
  lemma HealedExactly(canon: Canon, rows: seq<Row>, s: Row)
    requires IsCanon(canon) && DistinctIds(rows)
    ensures s in Healed(canon, rows) <==>
            || (s in rows && canon(s.value) == None)
            || (canon(s.value) == Some(s.value) && s.value in Networks(canon, rows) && s == Kept(canon, rows, s.value))
  {
    hide View, Group, Networks;
    var done := NetworkSet(canon, rows);
    var gone := Gone(canon, rows, done);
    ViewHolds(canon, rows, rows, done, gone);
    if s in Healed(canon, rows) {
      var r :| r in rows && r.id !in gone && s == Shown(canon, rows, done, r);
      if canon(r.value).Some? {
        assert !Dropped(canon, rows, done, r);
      }
    } else if s in rows && canon(s.value) == None {
      assert s == Shown(canon, rows, done, s);
      NotGone(canon, rows, done, s);
    } else if canon(s.value) == Some(s.value) && s.value in Networks(canon, rows) && s == Kept(canon, rows, s.value) {
      var keeper := Group(canon, rows, s.value)[0];
      assert keeper in Group(canon, rows, s.value);
      assert s == Shown(canon, rows, done, keeper);
      NotGone(canon, rows, done, keeper);
    }
  }

  lemma NotGone(canon: Canon, rows: seq<Row>, done: set<string>, r: Row)
    requires DistinctIds(rows) && r in rows && !Dropped(canon, rows, done, r)
    ensures r.id !in Gone(canon, rows, done)
  {}

  predicate SameNetwork(canon: Canon, s: Row, t: Row) {
    canon(s.value).Some? && canon(s.value) == canon(t.value)
  }

  /** No two rows are left for one network, and UNIQUE(value) holds. */
  lemma HealedUnique(canon: Canon, rows: seq<Row>)
    requires Sound(canon, rows)
    ensures DistinctIds(Healed(canon, rows)) && UniqueValues(Healed(canon, rows))
    ensures forall s, t :: s in Healed(canon, rows) && t in Healed(canon, rows) && SameNetwork(canon, s, t) ==> s == t
  {
    hide View, Group, Networks, Kept;
    ViewIds(canon, rows, rows, NetworkSet(canon, rows), Gone(canon, rows, NetworkSet(canon, rows)));
    var healed := Healed(canon, rows);
    forall s, t | s in healed && t in healed && (s.value == t.value || SameNetwork(canon, s, t))
      ensures s == t
    {
      HealedExactly(canon, rows, s);
      HealedExactly(canon, rows, t);
    }
  }

  /** A second pass finds nothing to do. */
  lemma HealedTwice(canon: Canon, rows: seq<Row>)
    requires Sound(canon, rows)
    ensures Healed(canon, Healed(canon, rows)) == Healed(canon, rows)
  {
    hide View, Group, Networks, Gone, Shown, DistinctIds, UniqueValues;
    var healed := Healed(canon, rows);
    HealedUnique(canon, rows);
    var done := NetworkSet(canon, healed);
    forall r | r in healed
      ensures r.id !in Gone(canon, healed, done) && Shown(canon, healed, done, r) == r
    {
      HealedExactly(canon, rows, r);
      Untouched(canon, healed, done, r);
    }
    ViewSame(canon, healed, healed, done, Gone(canon, healed, done));
  }

  lemma Untouched(canon: Canon, rows: seq<Row>, done: set<string>, r: Row)
    requires DistinctIds(rows) && r in rows && canon(r.value) in {None, Some(r.value)}
    requires forall s :: s in rows && SameNetwork(canon, s, r) ==> s == r
    ensures r.id !in Gone(canon, rows, done) && Shown(canon, rows, done, r) == r
  {
    hide Group, Gone;
    if canon(r.value).Some? {
      Alone(canon, rows, r);
      OneReason([r]);
      assert [r][..1] == [r];
    }
    NotGone(canon, rows, done, r);
  }

  lemma Alone(canon: Canon, rows: seq<Row>, r: Row)
    requires DistinctIds(rows) && r in rows && canon(r.value).Some?
    requires forall s :: s in rows && SameNetwork(canon, s, r) ==> s == r
    ensures Group(canon, rows, canon(r.value).value) == [r]
  {
    hide Group;
    var g := Group(canon, rows, canon(r.value).value);
    GroupIds(canon, rows, canon(r.value).value);
    assert r in g && g[0] in g;
    assert forall i :: 0 <= i < |g| ==> g[i] in g;
    assert forall s :: s in g ==> InGroup(canon, s, canon(r.value).value);
    assert forall i :: 0 <= i < |g| ==> g[i] == r;
    FirstTwo(g);
  }

  lemma FirstTwo(g: seq<Row>)
    requires DistinctIds(g)
    ensures |g| > 1 ==> g[0] != g[1]
  {}

  // ---- The table ----

  class Allowlist {
    var rows: seq<Row>
    const canon: Canon

    constructor (rows: seq<Row>, canon: Canon)
      ensures this.rows == rows && this.canon == canon
    {
      this.rows, this.canon := rows, canon;
    }

    ghost predicate Valid()
      reads this
    {
      Sound(canon, rows)
    }

    method Remove(id: nat)
      modifies this`rows
      ensures rows == Without(old(rows), id)
    {
      var kept: seq<Row> := [];
      for i := 0 to |rows|
        invariant rows == old(rows) && kept == Without(rows[..i], id)
      {
        assert rows[..i + 1][..i] == rows[..i];
        if rows[i].id != id {
          kept := kept + [rows[i]];
        }
      }
      assert rows[..|rows|] == rows;
      rows := kept;
    }

    /** The table refuses a value another row holds, so the caller has to know none does. */
    method Rewrite(id: nat, value: string, reason: string)
      requires Valid() && forall r :: r in rows && r.id != id ==> r.value != value
      modifies this`rows
      ensures Valid() && rows == With(old(rows), id, value, reason)
    {
      rows := With(rows, id, value, reason);
    }

    /** Collapses the rows of each network into the oldest, in canonical form. */
    method CanonicalizeExisting()
      requires Valid()
      modifies this`rows
      ensures Valid() && rows == Healed(canon, old(rows))
    {
      hide View, Group, Networks, Gone, FirstReason, Without, With, Sound;
      ghost var all := rows;
      var byCanon := Networks(canon, rows);
      var groups: seq<seq<Row>> := [];
      for i := 0 to |byCanon|
        invariant rows == all && |groups| == i
        invariant forall k :: 0 <= k < i ==> groups[k] == Group(canon, all, byCanon[k])
      {
        groups := groups + [Group(canon, rows, byCanon[i])];
      }
      ghost var done: set<string>, gone: set<nat> := {}, {};
      Start(canon, all);
      for k := 0 to |byCanon|
        invariant rows == View(canon, all, all, done, gone) && Valid()
        invariant done == set c | c in byCanon[..k]
        invariant gone == Gone(canon, all, done)
      {
        var c := byCanon[k];
        assert c in byCanon;
        assert byCanon[..k + 1] == byCanon[..k] + [c];
        var keeper := groups[k][0];
        var reason := keeper.reason;
        OneReason(groups[k]);
        for j := 1 to |groups[k]|
          invariant rows == View(canon, all, all, done, gone) && Valid()
          invariant gone == Gone(canon, all, done) + Ids(groups[k][1..j])
          invariant reason == FirstReason(groups[k][..j])
        {
          var dupe := groups[k][j];
          NextDupe(groups[k], j);
          FirstReasonNext(groups[k], j);
          if reason == "" && dupe.reason != "" {
            reason := dupe.reason;
          }
          ViewWithout(canon, all, all, done, gone, dupe.id);
          WithoutSound(canon, rows, dupe.id);
          Remove(dupe.id);
          gone := gone + {dupe.id};
        }
        assert groups[k][..|groups[k]|] == groups[k];
        assert groups[k][1..|groups[k]|] == groups[k][1..];
        GoneNext(canon, all, done, c);
        KeeperAlone(canon, all, done, c);
        ViewWith(canon, all, all, done, gone, keeper, c);
        if c != keeper.value || reason != keeper.reason {
          Rewrite(keeper.id, c, reason);
        } else {
          KeeperShown(canon, all, done, c);
          WithSame(canon, rows, keeper);
        }
        done := done + {c};
      }
      assert byCanon[..|byCanon|] == byCanon;
    }
  }
}
