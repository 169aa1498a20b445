/** The skill catalog: the rows of the skills table (job role, skill, weight)
    grouped into an insertion-ordered dictionary role -> list of (skill, weight)
    (backend/matcher/views.py:34-41), and `keyword_phrases`, the flat list of all
    skill names in dictionary order (backend/matcher/views.py:44). */
module SkillCatalog {
  import opened Seqs

  /** One row of the skills table. Weights are modelled as integers. */
  datatype Row = Row(role: string, skill: string, weight: int)

  /** One (skill, weight) pair of a role's list. */
  datatype Entry = Entry(skill: string, weight: int)

  /** A Python dict role -> list of entries: `roles` is its key order
      (insertion order), `groups` its contents. */
  datatype Catalog = Catalog(roles: seq<string>, groups: map<string, seq<Entry>>)

  /** Every key once, and exactly the keys of the map. */
  predicate Valid(c: Catalog) {
    && NoDuplicates(c.roles)
    && (forall r :: r in c.groups ==> r in c.roles)
    && (forall r :: r in c.roles ==> r in c.groups)
  }

  /** The role column of the table. */
  function RoleColumn(rows: seq<Row>): (r: seq<string>)
    ensures |r| == |rows|
    ensures forall i :: 0 <= i < |rows| ==> r[i] == rows[i].role
  {
    seq(|rows|, i requires 0 <= i < |rows| => rows[i].role)
  }

  /** The (skill, weight) pair of each row, in table order. */
  function EntryColumn(rows: seq<Row>): (r: seq<Entry>)
    ensures |r| == |rows|
    ensures forall i :: 0 <= i < |rows| ==> r[i] == Entry(rows[i].skill, rows[i].weight)
  {
    seq(|rows|, i requires 0 <= i < |rows| => Entry(rows[i].skill, rows[i].weight))
  }

  /** The skill column of the table: the skill names of its entries. */
  function SkillColumn(rows: seq<Row>): (r: seq<string>)
    ensures |r| == |rows|
    ensures forall i :: 0 <= i < |rows| ==> r[i] == rows[i].skill
  {
    Skills(EntryColumn(rows))
  }

  /** The (skill, weight) pairs of the rows of `role`, in table order. */
  function RowsOf(rows: seq<Row>, role: string): (r: seq<Entry>)
    ensures |r| <= |rows|
  {
    if rows == [] then []
    else
      var last := rows[|rows| - 1];
      RowsOf(rows[..|rows| - 1], role) + (if last.role == role then [Entry(last.skill, last.weight)] else [])
  }

  /** The dictionary the grouping loop builds from `rows`. */
  function Group(rows: seq<Row>): (c: Catalog)
    ensures Valid(c)
    ensures forall i :: 0 <= i < |rows| ==> rows[i].role in c.groups
    ensures forall role :: role in c.groups ==> role in RoleColumn(rows)
  {
    var roles := Dedup(RoleColumn(rows));
    Catalog(roles, map r | r in roles :: RowsOf(rows, r))
  }

  /** How the role order grows by one more row. */
  lemma RoleOrderStep(p: seq<Row>, x: Row)
    ensures Dedup(RoleColumn(p + [x])) ==
      if x.role in Dedup(RoleColumn(p)) then Dedup(RoleColumn(p)) else Dedup(RoleColumn(p)) + [x.role]
  {
    assert RoleColumn(p + [x]) == RoleColumn(p) + [x.role];
    assert RoleColumn(p + [x])[..|p|] == RoleColumn(p);
  }

  /** How a role's list grows by one more row. */
  lemma RowsOfStep(p: seq<Row>, x: Row, r: string)
    ensures RowsOf(p + [x], r) == RowsOf(p, r) + (if x.role == r then [Entry(x.skill, x.weight)] else [])
  {
    assert (p + [x])[..|p|] == p;
  }

  /** A role that no row has gets an empty list. */
  lemma {:induction false} RowsOfAbsent(p: seq<Row>, r: string)
    requires r !in RoleColumn(p)
    ensures RowsOf(p, r) == []
  {
    if p != [] {
      var q := p[..|p| - 1];
      assert RoleColumn(p) == RoleColumn(q) + [p[|p| - 1].role];
      RowsOfAbsent(q, r);
    }
  }

  /** The loop's invariant after the rows `done`: `roles` and `groups` are the
      dictionary built from them. */
  predicate GroupedSoFar(done: seq<Row>, roles: seq<string>, groups: map<string, seq<Entry>>) {
    && roles == Dedup(RoleColumn(done))
    && (forall r :: r in groups ==> r in roles)
    && (forall r :: r in roles ==> r in groups)
    && (forall r :: r in groups ==> groups[r] == RowsOf(done, r))
  }

  /** One iteration of the grouping loop for a role already in the dictionary. */
  lemma AppendToRoleStep(done: seq<Row>, row: Row, roles: seq<string>, groups: map<string, seq<Entry>>)
    requires GroupedSoFar(done, roles, groups)
    requires row.role in groups
    ensures GroupedSoFar(done + [row], roles, groups[row.role := groups[row.role] + [Entry(row.skill, row.weight)]])
  {
    var e := Entry(row.skill, row.weight);
    var g := groups[row.role := groups[row.role] + [e]];
    assert Dedup(RoleColumn(done + [row])) == roles by {
      RoleOrderStep(done, row);
    }
    assert g.Keys == groups.Keys;
    forall r | r in g ensures g[r] == RowsOf(done + [row], r) {
      RowsOfStep(done, row, r);
    }
  }

  /** One iteration of the grouping loop for a role seen for the first time. */
  lemma NewRoleStep(done: seq<Row>, row: Row, roles: seq<string>, groups: map<string, seq<Entry>>)
    requires GroupedSoFar(done, roles, groups)
    requires row.role !in groups
    ensures var g := groups[row.role := []];
      GroupedSoFar(done + [row], roles + [row.role], g[row.role := g[row.role] + [Entry(row.skill, row.weight)]])
  {
    var e := Entry(row.skill, row.weight);
    var g0 := groups[row.role := []];
    var g := g0[row.role := g0[row.role] + [e]];
    assert g0[row.role] + [e] == [e];
    assert g == groups[row.role := [e]];
    assert Dedup(RoleColumn(done + [row])) == roles + [row.role] by {
      RoleOrderStep(done, row);
    }
    assert RowsOf(done, row.role) == [] by {
      RowsOfAbsent(done, row.role);
    }
    forall r | r in g ensures g[r] == RowsOf(done + [row], r) {
      RowsOfStep(done, row, r);
    }
  }

  /** Once every row is done, the loop's variables are the dictionary. */
  lemma GroupedAll(rows: seq<Row>, roles: seq<string>, groups: map<string, seq<Entry>>)
    requires GroupedSoFar(rows, roles, groups)
    ensures Catalog(roles, groups) == Group(rows)
    ensures Valid(Catalog(roles, groups))
  {
    assert groups == map r | r in roles :: RowsOf(rows, r);
  }

  /** The grouping loop: insert a role the first time it is seen, then append the
      row's (skill, weight) to that role's list. */
  method BuildCatalog(rows: seq<Row>) returns (c: Catalog)
    ensures c == Group(rows)
    ensures Valid(c)
  {
    var roles: seq<string> := [];
    var groups: map<string, seq<Entry>> := map[];
    var i := 0;
    while i < |rows|
      invariant 0 <= i <= |rows|
      invariant GroupedSoFar(rows[..i], roles, groups)
    {
      var row := rows[i];
      PrefixExtend(rows, i);
      if row.role !in groups {
        NewRoleStep(rows[..i], row, roles, groups);
        roles := roles + [row.role];
        groups := groups[row.role := []];
      } else {
        AppendToRoleStep(rows[..i], row, roles, groups);
      }
      groups := groups[row.role := groups[row.role] + [Entry(row.skill, row.weight)]];
      i := i + 1;
    }
    assert rows[..i] == rows;
    GroupedAll(rows, roles, groups);
    c := Catalog(roles, groups);
  }

  /** Roles are the dictionary's keys exactly once each, in order of first
      appearance in the table, and every table role is a key. */
  lemma GroupRoleOrder(rows: seq<Row>)
    ensures Valid(Group(rows))
    ensures forall i :: 0 <= i < |rows| ==> rows[i].role in Group(rows).groups
    ensures forall i, j :: 0 <= i < j < |Group(rows).roles| ==>
      IndexOf(RoleColumn(rows), Group(rows).roles[i]) < IndexOf(RoleColumn(rows), Group(rows).roles[j])
  {
    var col := RoleColumn(rows);
    forall i | 0 <= i < |rows| ensures rows[i].role in Group(rows).groups {
      assert col[i] == rows[i].role;
    }
    forall i, j | 0 <= i < j < |Group(rows).roles|
      ensures IndexOf(col, Group(rows).roles[i]) < IndexOf(col, Group(rows).roles[j])
    {
      DedupFirstOccurrence(col, i, j);
    }
  }

  /** Every entry of a role's list comes from a row of that role. */
  lemma {:induction false} RowsOfSound(rows: seq<Row>, role: string, k: nat)
    requires k < |RowsOf(rows, role)|
    ensures exists i :: (0 <= i < |rows| && rows[i].role == role &&
                         RowsOf(rows, role)[k] == Entry(rows[i].skill, rows[i].weight))
  {
    var p := rows[..|rows| - 1];
    if k < |RowsOf(p, role)| {
      RowsOfSound(p, role, k);
      var i :| 0 <= i < |p| && p[i].role == role && RowsOf(p, role)[k] == Entry(p[i].skill, p[i].weight);
      assert rows[i] == p[i];
    } else {
      assert rows[|rows| - 1].role == role;
    }
  }

  /** The list of a role for a joined table is the list for the first part,
      then the list for the second: with `RowsOfStep` for one row this fixes
      every list exactly, each of its role's rows once and in table order. */
  lemma {:induction false} RowsOfAppend(a: seq<Row>, b: seq<Row>, role: string)
    ensures RowsOf(a + b, role) == RowsOf(a, role) + RowsOf(b, role)
    decreases |b|
  {
    if b == [] {
      assert a + b == a;
    } else {
      var front, x := b[..|b| - 1], b[|b| - 1];
      var tail := if x.role == role then [Entry(x.skill, x.weight)] else [];
      calc {
        RowsOf(a + b, role);
      == { assert a + b == (a + front) + [x]; RowsOfStep(a + front, x, role); }
        RowsOf(a + front, role) + tail;
      == { RowsOfAppend(a, front, role); }
        (RowsOf(a, role) + RowsOf(front, role)) + tail;
      == { SeqAssoc(RowsOf(a, role), RowsOf(front, role), tail); }
        RowsOf(a, role) + (RowsOf(front, role) + tail);
      == { assert b == front + [x]; RowsOfStep(front, x, role); }
        RowsOf(a, role) + RowsOf(b, role);
      }
    }
  }

  /** Every row's (skill, weight) is in its role's list. */
  lemma {:induction false} RowsOfComplete(rows: seq<Row>, i: nat)
    requires i < |rows|
    ensures Entry(rows[i].skill, rows[i].weight) in RowsOf(rows, rows[i].role)
  {
    if i < |rows| - 1 {
      RowsOfComplete(rows[..|rows| - 1], i);
    }
  }

  /** Two rows of the same role keep their table order in the role's list. */
  lemma {:induction false} RowsOfOrder(rows: seq<Row>, i: nat, j: nat)
    requires i < j < |rows| && rows[i].role == rows[j].role
    ensures Precedes(RowsOf(rows, rows[i].role), Entry(rows[i].skill, rows[i].weight), Entry(rows[j].skill, rows[j].weight))
  {
    var p := rows[..|rows| - 1];
    var role := rows[i].role;
    var x, y := Entry(rows[i].skill, rows[i].weight), Entry(rows[j].skill, rows[j].weight);
    if j < |rows| - 1 {
      RowsOfOrder(p, i, j);
      var a, b :| 0 <= a < b < |RowsOf(p, role)| && RowsOf(p, role)[a] == x && RowsOf(p, role)[b] == y;
      assert RowsOf(rows, role)[a] == x && RowsOf(rows, role)[b] == y;
    } else {
      RowsOfComplete(p, i);
      var a :| 0 <= a < |RowsOf(p, role)| && RowsOf(p, role)[a] == x;
      assert RowsOf(rows, role) == RowsOf(p, role) + [y];
      assert RowsOf(rows, role)[a] == x && RowsOf(rows, role)[|RowsOf(p, role)|] == y;
    }
  }

  /** The skill names of a role's list. */
  function Skills(entries: seq<Entry>): (r: seq<string>)
    ensures |r| == |entries|
    ensures forall i :: 0 <= i < |entries| ==> r[i] == entries[i].skill
  {
    seq(|entries|, i requires 0 <= i < |entries| => entries[i].skill)
  }

  /** The skill names of the lists of `roles`, one list after the other. */
  function Phrases(roles: seq<string>, groups: map<string, seq<Entry>>): (r: seq<string>)
    requires forall r :: r in roles ==> r in groups
  {
    if roles == [] then []
    else Phrases(roles[..|roles| - 1], groups) + Skills(groups[roles[|roles| - 1]])
  }

  /** `keyword_phrases`: every skill name of the dictionary, in key order and
      list order. */
  function KeywordPhrases(c: Catalog): (r: seq<string>)
    requires Valid(c)
    ensures forall k :: 0 <= k < |r| ==> Listed(r[k], c.roles, c.groups)
  {
    PhrasesSound(c.roles, c.groups);
    Phrases(c.roles, c.groups)
  }

  /** Every name in the flattened lists is a skill of one of `roles`. */
  lemma {:induction false} PhrasesSound(roles: seq<string>, groups: map<string, seq<Entry>>)
    requires forall r :: r in roles ==> r in groups
    ensures forall k :: 0 <= k < |Phrases(roles, groups)| ==> Listed(Phrases(roles, groups)[k], roles, groups)
  {
    if roles != [] {
      var p, last := roles[..|roles| - 1], roles[|roles| - 1];
      PhrasesSound(p, groups);
      var r, q := Phrases(roles, groups), Phrases(p, groups);
      assert r == q + Skills(groups[last]);
      forall k | 0 <= k < |r| ensures Listed(r[k], roles, groups) {
        if k < |q| {
          assert r[k] == q[k] && Listed(q[k], p, groups);
          var role :| role in p && role in groups && q[k] in Skills(groups[role]);
          assert role in roles;
        } else {
          assert r[k] == Skills(groups[last])[k - |q|];
          assert last in roles;
        }
      }
    }
  }

  /** `name` is a skill in the list of one of `roles`. */
  ghost predicate Listed(name: string, roles: seq<string>, groups: map<string, seq<Entry>>) {
    exists role :: role in roles && role in groups && name in Skills(groups[role])
  }

  /** The skill names of the rows whose role is in `roles`, in table order. */
  function SkillsWhere(rows: seq<Row>, roles: seq<string>): (r: seq<string>) {
    if rows == [] then []
    else
      var last := rows[|rows| - 1];
      SkillsWhere(rows[..|rows| - 1], roles) + (if last.role in roles then [last.skill] else [])
  }

  /** Adding one more role adds exactly that role's skills. */
  lemma {:induction false} SkillsWhereAddRole(rows: seq<Row>, roles: seq<string>, r: string)
    requires r !in roles
    ensures multiset(SkillsWhere(rows, roles + [r]))
         == multiset(SkillsWhere(rows, roles)) + multiset(Skills(RowsOf(rows, r)))
  {
    if rows != [] {
      var p, last := rows[..|rows| - 1], rows[|rows| - 1];
      var added := if last.role == r then [Entry(last.skill, last.weight)] else [];
      var inNew := if last.role in roles + [r] then [last.skill] else [];
      var inOld := if last.role in roles then [last.skill] else [];
      assert multiset(inNew) == multiset(inOld) + multiset(Skills(added));
      assert multiset(Skills(RowsOf(rows, r))) == multiset(Skills(RowsOf(p, r))) + multiset(Skills(added)) by {
        assert RowsOf(rows, r) == RowsOf(p, r) + added;
        assert Skills(RowsOf(p, r) + added) == Skills(RowsOf(p, r)) + Skills(added);
      }
      SkillsWhereAddRole(p, roles, r);
      assert SkillsWhere(rows, roles + [r]) == SkillsWhere(p, roles + [r]) + inNew;
      assert SkillsWhere(rows, roles) == SkillsWhere(p, roles) + inOld;
    }
  }

  /** When every role is listed, `SkillsWhere` is the whole skill column. */
  lemma {:induction false} SkillsWhereAll(rows: seq<Row>, roles: seq<string>)
    requires forall i :: 0 <= i < |rows| ==> rows[i].role in roles
    ensures SkillsWhere(rows, roles) == SkillColumn(rows)
  {
    if rows != [] {
      var p := rows[..|rows| - 1];
      SkillsWhereAll(p, roles);
      assert SkillColumn(rows) == SkillColumn(p) + [rows[|rows| - 1].skill];
    }
  }

  /** The flattened lists of `roles` hold the skills of those roles' rows. */
  lemma {:induction false} PhrasesOfGroups(rows: seq<Row>, roles: seq<string>, groups: map<string, seq<Entry>>)
    requires NoDuplicates(roles)
    requires forall r :: r in roles ==> r in groups && groups[r] == RowsOf(rows, r)
    ensures multiset(Phrases(roles, groups)) == multiset(SkillsWhere(rows, roles))
  {
    if roles == [] {
      SkillsWhereNone(rows);
    } else {
      var p, r := roles[..|roles| - 1], roles[|roles| - 1];
      PhrasesOfGroups(rows, p, groups);
      SkillsWhereAddRole(rows, p, r);
      assert p + [r] == roles;
    }
  }

  lemma {:induction false} SkillsWhereNone(rows: seq<Row>)
    ensures SkillsWhere(rows, []) == []
  {
    if rows != [] {
      SkillsWhereNone(rows[..|rows| - 1]);
    }
  }

  /** `keyword_phrases` holds every row's skill exactly once (as a multiset of
      names), so its length is the number of rows. */
  lemma KeywordPhrasesCoverRows(rows: seq<Row>)
    ensures Valid(Group(rows))
    ensures multiset(KeywordPhrases(Group(rows))) == multiset(SkillColumn(rows))
    ensures |KeywordPhrases(Group(rows))| == |rows|
  {
    var c := Group(rows);
    GroupRoleOrder(rows);
    PhrasesOfGroups(rows, c.roles, c.groups);
    SkillsWhereAll(rows, c.roles);
    assert |multiset(KeywordPhrases(c))| == |multiset(SkillColumn(rows))|;
  }
}
