/** The migration runner: one transaction a version, which may stop with an error before any of them. */
module Migrations {
  import opened Wrappers
  import opened GoText

  /** What the up and down scripts do to a schema; None is a script that fails. */
  datatype Scripts<!S> = Scripts(up: (string, S) -> Option<S>, down: (string, S) -> Option<S>)

  /** The schema and the rows of schema_migrations. */
  datatype Database<S> = Database(schema: S, rows: seq<string>)

  /** Each down script undoes its up script. */
  ghost predicate Undoes<S(!new)>(scripts: Scripts<S>) {
    forall v, s :: scripts.up(v, s).Some? ==> scripts.down(v, scripts.up(v, s).value) == Some(s)
  }

  // ---------------------------------------------------------------- Up and Down

  /** Versions in path order; `budget` transactions commit before an outside error stops the run. */
  function Up<S>(db: Database<S>, versions: seq<string>, budget: nat, scripts: Scripts<S>): (Database<S>, bool)
    decreases |versions|
  {
    if versions == [] then (db, true)
    else if versions[0] in db.rows then Up(db, versions[1..], budget, scripts)
    else if budget == 0 then (db, false)
    else
      match scripts.up(versions[0], db.schema)
      case None => (db, false)
      case Some(schema) => Up(Database(schema, db.rows + [versions[0]]), versions[1..], budget - 1, scripts)
  }

  function Reverse(s: seq<string>): (r: seq<string>)
    ensures |r| == |s| && forall i | 0 <= i < |s| :: r[i] == s[|s| - 1 - i]
  {
    seq(|s|, i requires 0 <= i < |s| => s[|s| - 1 - i])
  }

  /** SELECT version ... ORDER BY version DESC LIMIT steps, in byte order. */
  function Newest(rows: seq<string>, steps: nat): seq<string> {
    var down := Reverse(SortStrings(rows));
    if steps < |down| then down[..steps] else down
  }

  function Without(rows: seq<string>, version: string): seq<string> {
    if rows == [] then []
    else if rows[0] == version then Without(rows[1..], version)
    else [rows[0]] + Without(rows[1..], version)
  }

  function DownAll<S>(db: Database<S>, versions: seq<string>, budget: nat, scripts: Scripts<S>): (Database<S>, bool)
    decreases |versions|
  {
    if versions == [] then (db, true)
    else if budget == 0 then (db, false)
    else
      match scripts.down(versions[0], db.schema)
      case None => (db, false)
      case Some(schema) => DownAll(Database(schema, Without(db.rows, versions[0])), versions[1..], budget - 1, scripts)
  }

  function Down<S>(db: Database<S>, steps: int, budget: nat, scripts: Scripts<S>): (Database<S>, bool) {
    if steps <= 0 then (db, false) else DownAll(db, Newest(db.rows, steps), budget, scripts)
  }

  class Runner<S> {
    var schema: S
    var rows: seq<string>
    const scripts: Scripts<S>
    const dir: string
    /** The sorted paths upFiles returns. */
    const files: seq<string>

    ghost function View(): Database<S>
      reads this
    {
      Database(schema, rows)
    }

    constructor (schema: S, scripts: Scripts<S>, dir: string, names: seq<string>)
      ensures View() == Database(schema, []) && this.scripts == scripts && this.dir == dir
      ensures files == SortStrings(Paths(dir, names))
    {
      this.schema, this.rows, this.scripts, this.dir := schema, [], scripts, dir;
      this.files := SortStrings(Paths(dir, names));
    }

    method RunUp(budget: nat) returns (ok: bool)
      modifies this
      ensures (View(), ok) == Up(old(View()), Versions(files), budget, scripts)
    {
      var left := budget;
      ghost var goal := Up(View(), Versions(files), budget, scripts);
      for i := 0 to |files|
        invariant Up(View(), Versions(files)[i..], left, scripts) == goal
      {
        assert Versions(files)[i..][1..] == Versions(files)[i + 1..];
        var version := MigrationVersion(files[i]);
        if version in rows { continue; }
        if left == 0 { return false; }
        var next := scripts.up(version, schema);
        if next.None? { return false; }
        schema, rows, left := next.value, rows + [version], left - 1;
      }
      return true;
    }

    method RunDown(steps: int, budget: nat) returns (ok: bool)
      modifies this
      ensures (View(), ok) == Down(old(View()), steps, budget, scripts)
      ensures steps <= 0 ==> !ok && View() == old(View())
    {
      if steps <= 0 { return false; }
      var versions := Newest(rows, steps);
      var left := budget;
      ghost var goal := DownAll(View(), versions, budget, scripts);
      for i := 0 to |versions|
        invariant DownAll(View(), versions[i..], left, scripts) == goal
      {
        assert versions[i..][1..] == versions[i + 1..];
        if left == 0 { return false; }
        var next := scripts.down(versions[i], schema);
        if next.None? { return false; }
        schema, rows, left := next.value, Without(rows, versions[i]), left - 1;
      }
      return true;
    }
  }

  // ---------------------------------------------------------------- paths

  const SUFFIX: string := ".up.sql"

  function PathOf(dir: string, version: string): string { dir + "/" + version + SUFFIX }

  function Paths(dir: string, versions: seq<string>): (r: seq<string>)
    ensures |r| == |versions| && forall i | 0 <= i < |versions| :: r[i] == PathOf(dir, versions[i])
  {
    seq(|versions|, i requires 0 <= i < |versions| => PathOf(dir, versions[i]))
  }

  /** filepath.Base of a path that ends in a file name. */
  function Base(path: string): string {
    if path == "" || '/' !in path then path else Base(path[1..])
  }

  function TrimSuffix(s: string, suffix: string): string {
    if HasSuffix(s, suffix) then s[..|s| - |suffix|] else s
  }

  function MigrationVersion(path: string): string { TrimSuffix(Base(path), SUFFIX) }

  function Versions(files: seq<string>): (r: seq<string>)
    ensures |r| == |files| && forall i | 0 <= i < |files| :: r[i] == MigrationVersion(files[i])
  {
    seq(|files|, i requires 0 <= i < |files| => MigrationVersion(files[i]))
  }

  lemma {:induction false} BaseOfPath(dir: string, name: string)
    requires '/' !in name
    ensures Base(dir + "/" + name) == name
  {
    var path := dir + "/" + name;
    assert path[|dir|] == '/';
    if dir == "" {
      assert path[1..] == name;
    } else {
      assert path[1..] == dir[1..] + "/" + name;
      BaseOfPath(dir[1..], name);
    }
  }

  /** The version of a path is what the path was made from. */
  lemma VersionOfPath(dir: string, version: string)
    requires '/' !in version
    ensures PathOf(dir, version) == dir + "/" + version + ".up.sql" && MigrationVersion(PathOf(dir, version)) == version
  {
    assert PathOf(dir, version) == dir + "/" + (version + SUFFIX);
    BaseOfPath(dir, version + SUFFIX);
  }

  lemma {:induction false} LessWithPrefix(p: string, a: string, b: string)
    ensures Less(p + a, p + b) <==> Less(a, b)
  {
    if p == "" {
      assert p + a == a && p + b == b;
    } else {
      LessWithPrefix(p[1..], a, b);
      assert (p + a)[1..] == p[1..] + a && (p + b)[1..] == p[1..] + b;
    }
  }

  lemma {:induction false} LessWithSuffix(a: string, b: string, x: string, y: string)
    requires !(a <= b) && !(b <= a)
    ensures Less(a + x, b + y) <==> Less(a, b)
  {
    assert (a + x)[1..] == a[1..] + x && (b + y)[1..] == b[1..] + y;
    if a[0] == b[0] {
      assert a == [a[0]] + a[1..] && b == [b[0]] + b[1..];
      LessWithSuffix(a[1..], b[1..], x, y);
    }
  }

  /** Two versions neither of which is a prefix of the other sort alike as paths. */
  lemma PathOrderIsVersionOrder(dir: string, v: string, w: string)
    requires !(v <= w) && !(w <= v)
    ensures Less(PathOf(dir, v), PathOf(dir, w)) <==> Less(v, w)
  {
    LessWithSuffix(v, w, SUFFIX, SUFFIX);
    hide Less;
    assert PathOf(dir, v) == (dir + "/") + (v + SUFFIX) && PathOf(dir, w) == (dir + "/") + (w + SUFFIX);
    LessWithPrefix(dir + "/", v + SUFFIX, w + SUFFIX);
  }

  /** A version sorts before any longer one it begins; its path does exactly when the suffix sorts before
      the rest of the longer one with the suffix. */
  lemma PathOrderOfPrefix(dir: string, v: string, rest: string)
    requires rest != ""
    ensures Less(v, v + rest)
    ensures Less(PathOf(dir, v), PathOf(dir, v + rest)) <==> Less(SUFFIX, rest + SUFFIX)
  {
    LessWithPrefix(v, "", rest);
    assert v + "" == v && Less("", rest);
    LessWithPrefix(dir + "/" + v, SUFFIX, rest + SUFFIX);
    hide Less;
    assert PathOf(dir, v + rest) == (dir + "/" + v) + (rest + SUFFIX);
  }

  /** "1" and "1-a" sort one way as versions and the other way as paths. */
  lemma OrdersCanDisagree(dir: string)
    ensures Less("1", "1-a") && Less(PathOf(dir, "1-a"), PathOf(dir, "1"))
  {
    PathOrderOfPrefix(dir, "1", "-a");
    assert "1" + "-a" == "1-a";
    var rest := "-a" + SUFFIX;
    assert rest[0] == '-' && SUFFIX[0] == '.' && !Less(SUFFIX, rest);
    LessTotal(PathOf(dir, "1"), PathOf(dir, "1-a"));
    assert PathOf(dir, "1-a")[|dir| + 2] == '-' && PathOf(dir, "1")[|dir| + 2] == '.';
  }

  predicate NoneIsPrefix(versions: seq<string>) {
    forall i, j | 0 <= i < |versions| && 0 <= j < |versions| && i != j :: !(versions[i] <= versions[j])
  }

  lemma PathsDistinct(dir: string, versions: seq<string>)
    requires Distinct(versions) && forall v | v in versions :: '/' !in v
    ensures Distinct(Paths(dir, versions))
  {
    var paths := Paths(dir, versions);
    forall i, j | 0 <= i < j < |paths| ensures paths[i] != paths[j] {
      assert versions[i] in versions && versions[j] in versions;
      VersionOfPath(dir, versions[i]);
      VersionOfPath(dir, versions[j]);
    }
  }

  /** Each sorted path is the path of its version. */
  lemma SortedPaths(dir: string, versions: seq<string>)
    requires Distinct(versions) && forall v | v in versions :: '/' !in v
    ensures var files := SortStrings(Paths(dir, versions));
            && Increasing(files) && |files| == |versions|
            && (forall i | 0 <= i < |files| :: Versions(files)[i] in versions && files[i] == PathOf(dir, Versions(files)[i]))
            && Elements(Versions(files)) == Elements(versions)
  {
    hide PathOf, MigrationVersion;
    var paths := Paths(dir, versions);
    PathsDistinct(dir, versions);
    SortSorts(paths);
    var files := SortStrings(paths);
    forall i | 0 <= i < |files| ensures Versions(files)[i] in versions && files[i] == PathOf(dir, Versions(files)[i]) {
      assert files[i] in Elements(paths);
      var k :| 0 <= k < |paths| && paths[k] == files[i];
      VersionOfPath(dir, versions[k]);
    }
    forall v | v in versions ensures v in Elements(Versions(files)) {
      var k :| 0 <= k < |versions| && versions[k] == v;
      assert paths[k] in Elements(files);
      var i :| 0 <= i < |files| && files[i] == paths[k];
      VersionOfPath(dir, v);
      assert Versions(files)[i] == v;
    }
  }

  /** When no version is a prefix of another, Up's path order is the byte order of the versions. */
  lemma UpOrderIsVersionOrder(dir: string, versions: seq<string>)
    requires NoneIsPrefix(versions) && forall v | v in versions :: '/' !in v
    ensures Versions(SortStrings(Paths(dir, versions))) == SortStrings(versions)
  {
    hide PathOf, MigrationVersion;
    assert Distinct(versions);
    SortedPaths(dir, versions);
    var files := SortStrings(Paths(dir, versions));
    var sorted := Versions(files);
    forall i, j | 0 <= i < j < |sorted| ensures Less(sorted[i], sorted[j]) {
      LessTotal(files[i], files[i]);
      var k :| 0 <= k < |versions| && versions[k] == sorted[i];
      var l :| 0 <= l < |versions| && versions[l] == sorted[j];
      PathOrderIsVersionOrder(dir, versions[k], versions[l]);
    }
    SortSorts(versions);
    IncreasingUnique(sorted, SortStrings(versions));
  }

  // ---------------------------------------------------------------- every run

  datatype Command = UpCommand(budget: nat) | DownCommand(steps: int, budget: nat)

  function Execute<S>(db: Database<S>, versions: seq<string>, c: Command, scripts: Scripts<S>): Database<S> {
    match c
    case UpCommand(budget) => Up(db, versions, budget, scripts).0
    case DownCommand(steps, budget) => Down(db, steps, budget, scripts).0
  }

  function ExecuteAll<S>(db: Database<S>, versions: seq<string>, commands: seq<Command>, scripts: Scripts<S>): Database<S>
    decreases |commands|
  {
    if commands == [] then db
    else ExecuteAll(Execute(db, versions, commands[0], scripts), versions, commands[1..], scripts)
  }

  /** The up scripts of the versions, applied in order. */
  function Replay<S>(scripts: Scripts<S>, schema: S, versions: seq<string>): Option<S> {
    if versions == [] then Some(schema)
    else
      match Replay(scripts, schema, versions[..|versions| - 1])
      case None => None
      case Some(s) => scripts.up(versions[|versions| - 1], s)
  }

  /** The first n versions are recorded, and the schema is what their up scripts make. */
  ghost predicate Holds<S>(db: Database<S>, s0: S, versions: seq<string>, scripts: Scripts<S>, n: nat) {
    n <= |versions| && db.rows == versions[..n] && Replay(scripts, s0, versions[..n]) == Some(db.schema)
  }

  lemma {:induction false} UpFrom<S>(db: Database<S>, s0: S, versions: seq<string>, scripts: Scripts<S>, n: nat, k: nat, budget: nat)
    returns (m: nat)
    requires Distinct(versions) && Holds(db, s0, versions, scripts, n) && k <= n
    ensures n <= m <= n + budget
    ensures var (after, ok) := Up(db, versions[k..], budget, scripts);
            Holds(after, s0, versions, scripts, m) && (ok <==> m == |versions|)
            && (!ok ==> m == n + budget || scripts.up(versions[m], after.schema).None?)
    decreases |versions| - k
  {
    if k == |versions| {
      m := n;
    } else {
      assert versions[k..][1..] == versions[k + 1..];
      if k < n {
        assert versions[..n][k] == versions[k];
        m := UpFrom(db, s0, versions, scripts, n, k + 1, budget);
      } else {
        assert versions[k] !in db.rows;
        var next := scripts.up(versions[k], db.schema);
        if budget == 0 || next.None? {
          m := n;
        } else {
          assert versions[..n + 1][..n] == versions[..n];
          m := UpFrom(Database(next.value, db.rows + [versions[k]]), s0, versions, scripts, n + 1, k + 1, budget - 1);
        }
      }
    }
  }

  lemma {:induction false} WithoutLast(rows: seq<string>)
    requires rows != [] && Distinct(rows)
    ensures Without(rows, rows[|rows| - 1]) == rows[..|rows| - 1]
  {
    if |rows| > 1 {
      WithoutLast(rows[1..]);
      assert rows[..|rows| - 1] == [rows[0]] + rows[1..][..|rows| - 2];
    } else {
      assert Without(rows[1..], rows[0]) == [];
    }
  }

  /** The last j of the first n versions, newest first. */
  function Backwards(versions: seq<string>, n: nat, j: nat): (r: seq<string>)
    requires j <= n <= |versions|
    ensures |r| == j && forall i | 0 <= i < j :: r[i] == versions[n - 1 - i]
    decreases j
  {
    if j == 0 then [] else [versions[n - 1]] + Backwards(versions, n - 1, j - 1)
  }

  lemma DropNewest<S(!new)>(db: Database<S>, s0: S, versions: seq<string>, scripts: Scripts<S>, n: nat)
    requires Distinct(versions) && Undoes(scripts) && Holds(db, s0, versions, scripts, n) && n > 0
    ensures var before := scripts.down(versions[n - 1], db.schema);
            before.Some? && Holds(Database(before.value, Without(db.rows, versions[n - 1])), s0, versions, scripts, n - 1)
  {
    assert versions[..n][..n - 1] == versions[..n - 1] && versions[..n][n - 1] == versions[n - 1];
    WithoutLast(versions[..n]);
  }

  lemma {:induction false} DownFrom<S(!new)>(db: Database<S>, s0: S, versions: seq<string>, scripts: Scripts<S>, n: nat, j: nat, budget: nat)
    returns (m: nat)
    requires Distinct(versions) && Undoes(scripts) && Holds(db, s0, versions, scripts, n) && j <= n
    ensures m == if budget < j then n - budget else n - j
    ensures var (after, ok) := DownAll(db, Backwards(versions, n, j), budget, scripts);
            Holds(after, s0, versions, scripts, m) && (ok <==> j <= budget)
    decreases j
  {
    hide Distinct, Replay;
    if j == 0 || budget == 0 {
      m := n;
    } else {
      DropNewest(db, s0, versions, scripts, n);
      hide Holds, Undoes, Without;
      var version := versions[n - 1];
      var next := Database(scripts.down(version, db.schema).value, Without(db.rows, version));
      assert Backwards(versions, n, j)[1..] == Backwards(versions, n - 1, j - 1);
      m := DownFrom(next, s0, versions, scripts, n - 1, j - 1, budget - 1);
    }
  }

  /** A Down undoes the newest recorded versions, as many as it asks for or its budget lets it. */
  lemma DownUndoesNewest<S(!new)>(db: Database<S>, s0: S, versions: seq<string>, scripts: Scripts<S>, n: nat, steps: int, budget: nat)
    returns (m: nat)
    requires Increasing(versions) && Undoes(scripts) && Holds(db, s0, versions, scripts, n) && steps > 0
    ensures var wanted := if steps < n then steps else n;
            m == if budget < wanted then n - budget else n - wanted
    ensures var (after, ok) := Down(db, steps, budget, scripts);
            Holds(after, s0, versions, scripts, m) && (ok <==> m == if steps < n then n - steps else 0)
  {
    var rows := versions[..n];
    IncreasingIsDistinct(versions);
    IncreasingIsDistinct(rows);
    SortSorts(rows);
    IncreasingUnique(rows, SortStrings(rows));
    var j := if steps < n then steps else n;
    assert Newest(rows, steps) == Backwards(versions, n, j);
    m := DownFrom(db, s0, versions, scripts, n, j, budget);
    hide DownAll, Undoes, Increasing, Distinct;
  }

  lemma IncreasingIsDistinct(s: seq<string>)
    requires Increasing(s)
    ensures Distinct(s)
  {
    forall i, j | 0 <= i < j < |s| ensures s[i] != s[j] { LessTotal(s[i], s[i]); }
  }

  /** After any commands, each stopped by an error anywhere, the recorded versions are a prefix of the
      sorted list and the schema is what their up scripts make. */
  lemma {:induction false} EveryRunHolds<S(!new)>(db: Database<S>, s0: S, versions: seq<string>, commands: seq<Command>, scripts: Scripts<S>, n: nat)
    returns (m: nat)
    requires Increasing(versions) && Undoes(scripts) && Holds(db, s0, versions, scripts, n)
    ensures Holds(ExecuteAll(db, versions, commands, scripts), s0, versions, scripts, m)
    decreases |commands|
  {
    if commands == [] {
      m := n;
    } else {
      var k := n;
      match commands[0] {
        case UpCommand(budget) =>
          IncreasingIsDistinct(versions);
          assert versions[0..] == versions;
          k := UpFrom(db, s0, versions, scripts, n, 0, budget);
        case DownCommand(steps, budget) =>
          if steps > 0 { k := DownUndoesNewest(db, s0, versions, scripts, n, steps, budget); }
      }
      m := EveryRunHolds(Execute(db, versions, commands[0], scripts), s0, versions, commands[1..], scripts, k);
    }
  }

  /** The same of the files in a directory: if no version is a prefix of another, any commands leave a prefix of the
      versions in byte order recorded, with the schema that their up scripts make. */
  lemma FilesStayInOrder<S(!new)>(dir: string, names: seq<string>, s0: S, commands: seq<Command>, scripts: Scripts<S>) returns (m: nat)
    requires NoneIsPrefix(names) && (forall v | v in names :: '/' !in v) && Undoes(scripts)
    ensures var files := SortStrings(Paths(dir, names));
            Holds(ExecuteAll(Database(s0, []), Versions(files), commands, scripts), s0, SortStrings(names), scripts, m)
  {
    assert Distinct(names);
    UpOrderIsVersionOrder(dir, names);
    SortSorts(names);
    hide NoneIsPrefix, Distinct, SortStrings, Increasing, Paths;
    assert SortStrings(names)[..0] == [];
    m := EveryRunHolds(Database(s0, []), s0, SortStrings(names), commands, scripts, 0);
  }

  /** A successful Up records every version, in whatever order it finds them; one more changes nothing. */
  lemma {:induction false} SuccessfulUpRecordsAll<S>(db: Database<S>, versions: seq<string>, budget: nat, scripts: Scripts<S>, again: nat)
    requires Up(db, versions, budget, scripts).1
    ensures var after := Up(db, versions, budget, scripts).0;
            && (forall v | v in versions :: v in after.rows) && db.rows <= after.rows
            && Up(after, versions, again, scripts) == (after, true)
    decreases |versions|
  {
    if versions != [] {
      var next := if versions[0] in db.rows then db
                  else Database(scripts.up(versions[0], db.schema).value, db.rows + [versions[0]]);
      var left := if versions[0] in db.rows then budget else budget - 1;
      SuccessfulUpRecordsAll(next, versions[1..], left, scripts, again);
      assert versions == [versions[0]] + versions[1..];
      var after := Up(db, versions, budget, scripts).0;
      assert after == Up(next, versions[1..], left, scripts).0 && versions[0] in next.rows;
      assert versions[0] in after.rows;
    }
  }

  // ---------------------------------------------------------------- whatever is recorded

  /** The versions that are not recorded, in their order. */
  function Missing(versions: seq<string>, rows: seq<string>): (r: seq<string>)
    ensures forall v :: v in r <==> v in versions && v !in rows
  {
    if versions == [] then []
    else
      assert versions == [versions[0]] + versions[1..];
      if versions[0] in rows then Missing(versions[1..], rows) else [versions[0]] + Missing(versions[1..], rows)
  }

  lemma {:induction false} MissingAfter(versions: seq<string>, rows: seq<string>, v: string)
    requires v !in versions
    ensures Missing(versions, rows + [v]) == Missing(versions, rows)
  {
    if versions != [] { MissingAfter(versions[1..], rows, v); }
  }

  lemma {:induction false} ReplayCons<S>(scripts: Scripts<S>, schema: S, v: string, rest: seq<string>)
    requires scripts.up(v, schema).Some?
    ensures Replay(scripts, schema, [v] + rest) == Replay(scripts, scripts.up(v, schema).value, rest)
    decreases |rest|
  {
    if rest == [] {
      assert [v] + rest == [v] && [v][..0] == [];
      assert Replay(scripts, schema, [v]) == scripts.up(v, schema);
    } else {
      var n := |rest| - 1;
      ReplayCons(scripts, schema, v, rest[..n]);
      assert ([v] + rest)[..n + 1] == [v] + rest[..n];
    }
  }

  /** Whatever is recorded, with holes or not, Up applies the versions that are missing, in path order and each once,
      until an outside error or a failing script stops it. */
  lemma {:induction false} UpAppliesMissing<S>(db: Database<S>, versions: seq<string>, budget: nat, scripts: Scripts<S>) returns (m: nat)
    requires Distinct(versions)
    ensures var missing, (after, ok) := Missing(versions, db.rows), Up(db, versions, budget, scripts);
            && m <= |missing| && m <= budget && after.rows == db.rows + missing[..m]
            && Replay(scripts, db.schema, missing[..m]) == Some(after.schema)
            && (ok <==> m == |missing|) && (!ok ==> m == budget || scripts.up(missing[m], after.schema).None?)
    decreases |versions|
  {
    var missing := Missing(versions, db.rows);
    m := 0;
    if versions != [] && versions[0] in db.rows {
      m := UpAppliesMissing(db, versions[1..], budget, scripts);
    } else if versions != [] && budget > 0 && scripts.up(versions[0], db.schema).Some? {
      var v, rest := versions[0], Missing(versions[1..], db.rows);
      var next := Database(scripts.up(v, db.schema).value, db.rows + [v]);
      MissingAfter(versions[1..], db.rows, v);
      var k := UpAppliesMissing(next, versions[1..], budget - 1, scripts);
      m := k + 1;
      assert missing == [v] + rest && missing[..m] == [v] + rest[..k];
      ReplayCons(scripts, db.schema, v, rest[..k]);
    }
  }

  /** Down picks the greatest recorded versions, the greatest first. */
  lemma NewestExactly(rows: seq<string>, steps: nat)
    requires Distinct(rows)
    ensures var picked := Newest(rows, steps);
            && |picked| == (if steps < |rows| then steps else |rows|)
            && (forall i, j | 0 <= i < j < |picked| :: Less(picked[j], picked[i]))
            && (forall v | v in picked :: v in rows)
            && (forall v, w | v in rows && v !in picked && w in picked :: Less(v, w))
  {
    SortSorts(rows);
    var sorted, picked := SortStrings(rows), Newest(rows, steps);
    forall v | v in picked ensures v in rows {
      var i :| 0 <= i < |picked| && picked[i] == v;
      assert sorted[|sorted| - 1 - i] in Elements(sorted);
    }
    forall j | |sorted| - |picked| <= j < |sorted| ensures sorted[j] in picked { assert picked[|sorted| - 1 - j] == sorted[j]; }
    forall v, w | v in rows && v !in picked && w in picked ensures Less(v, w) {
      assert v in Elements(sorted);
      var i :| 0 <= i < |picked| && picked[i] == w;
      var k :| 0 <= k < |sorted| && sorted[k] == v;
    }
  }

  /** The down scripts of the versions, run in order. */
  function Undo<S>(scripts: Scripts<S>, schema: S, versions: seq<string>): Option<S>
    decreases |versions|
  {
    if versions == [] then Some(schema)
    else
      match scripts.down(versions[0], schema)
      case None => None
      case Some(s) => Undo(scripts, s, versions[1..])
  }

  /** Whatever is recorded, Down takes the versions it picked off the record and runs their down scripts, in order, until
      an outside error or a failing script stops it; every other version stays recorded. */
  lemma {:induction false} DownRemovesPicked<S>(db: Database<S>, picked: seq<string>, budget: nat, scripts: Scripts<S>) returns (m: nat)
    ensures var (after, ok) := DownAll(db, picked, budget, scripts);
            && m <= |picked| && m <= budget
            && (forall v :: v in after.rows <==> v in db.rows && v !in picked[..m])
            && Undo(scripts, db.schema, picked[..m]) == Some(after.schema)
            && (ok <==> m == |picked|) && (!ok ==> m == budget || scripts.down(picked[m], after.schema).None?)
    decreases |picked|
  {
    m := 0;
    if picked != [] && budget > 0 && scripts.down(picked[0], db.schema).Some? {
      var next := Database(scripts.down(picked[0], db.schema).value, Without(db.rows, picked[0]));
      WithoutElements(db.rows, picked[0]);
      var k := DownRemovesPicked(next, picked[1..], budget - 1, scripts);
      m := k + 1;
      assert picked[..m] == [picked[0]] + picked[1..][..k] && picked[..m][1..] == picked[1..][..k];
    }
  }

  // ---------------------------------------------------------------- when the orders disagree

  /** Scripts that cannot fail, on a schema of which nothing is known. */
  datatype Untouched = Untouched

  const NO_OPS: Scripts<Untouched> := Scripts((_, _) => Some(Untouched), (_, _) => Some(Untouched))

  lemma NoOpsUndo()
    ensures Undoes(NO_OPS)
  {
    forall v, s | NO_OPS.up(v, s).Some? ensures NO_OPS.down(v, NO_OPS.up(v, s).value) == Some(s) { assert s == Untouched; }
  }

  ghost predicate RecordsPrefix(rows: seq<string>, versions: seq<string>) {
    exists n | 0 <= n <= |versions| :: Elements(rows) == Elements(versions[..n])
  }

  function Recorded(versions: seq<string>, commands: seq<Command>): seq<string> {
    ExecuteAll(Database(Untouched, []), versions, commands, NO_OPS).rows
  }

  lemma {:induction false} FirstInversion(versions: seq<string>, n: nat) returns (i: nat)
    requires n < |versions| && Distinct(versions) && Increasing(versions[..n + 1]) && !Increasing(versions)
    ensures i + 1 < |versions| && Less(versions[i + 1], versions[i])
    decreases |versions| - n
  {
    assert versions[..|versions|] == versions;
    LessTotal(versions[n], versions[n + 1]);
    if Less(versions[n + 1], versions[n]) {
      i := n;
    } else {
      var longer := versions[..n + 2];
      forall a, b | 0 <= a < b < n + 2 ensures Less(longer[a], longer[b]) {
        assert forall c | 0 <= c <= n :: versions[..n + 1][c] == versions[c];
        if b == n + 1 && a < n { LessTrans(versions[a], versions[n], versions[n + 1]); }
      }
      i := FirstInversion(versions, n + 1);
    }
  }

  lemma {:induction false} WithoutElements(rows: seq<string>, v: string)
    ensures forall x :: x in Without(rows, v) <==> x in rows && x != v
  {
    if rows != [] {
      WithoutElements(rows[1..], v);
      assert rows == [rows[0]] + rows[1..];
    }
  }

  /** The newest of rows whose last one is smaller than the one before it is not the last one. */
  lemma NewestIsEarlier(rows: seq<string>) returns (g: nat)
    requires Distinct(rows) && |rows| >= 2 && Less(rows[|rows| - 1], rows[|rows| - 2])
    ensures g < |rows| - 1 && Newest(rows, 1) == [rows[g]]
  {
    SortSorts(rows);
    var sorted, last := SortStrings(rows), |rows| - 1;
    var greatest := sorted[|sorted| - 1];
    assert greatest in Elements(rows) && rows[last - 1] in Elements(sorted);
    g :| 0 <= g < |rows| && rows[g] == greatest;
    var k :| 0 <= k < |sorted| && sorted[k] == rows[last - 1];
    LessTotal(rows[last - 1], rows[last]);
    assert Newest(rows, 1) == [greatest];
  }

  lemma HoleIsNoPrefix(versions: seq<string>, n: nat, g: nat)
    requires Distinct(versions) && g + 1 < n <= |versions|
    ensures !RecordsPrefix(Without(versions[..n], versions[g]), versions)
  {
    var rows := Without(versions[..n], versions[g]);
    WithoutElements(versions[..n], versions[g]);
    assert versions[..n][n - 1] == versions[n - 1];
    forall m | 0 <= m <= |versions| ensures Elements(rows) != Elements(versions[..m]) {
      if m > g {
        assert versions[..m][g] == versions[g] && versions[g] in Elements(versions[..m]) && versions[g] !in Elements(rows);
      } else {
        assert versions[n - 1] in Elements(rows) && versions[n - 1] !in Elements(versions[..m]);
      }
    }
  }

  /** Where a later path has a smaller version, one Up and one Down leave a hole. */
  lemma InversionLeavesHole(versions: seq<string>, i: nat)
    requires Distinct(versions) && i + 1 < |versions| && Less(versions[i + 1], versions[i])
    ensures !RecordsPrefix(Recorded(versions, [UpCommand(i + 2), DownCommand(1, 1)]), versions)
  {
    hide RecordsPrefix;
    var start, rows := Database(Untouched, []), versions[..i + 2];
    assert versions[..0] == [] && versions[0..] == versions;
    var m := UpFrom(start, Untouched, versions, NO_OPS, 0, 0, i + 2);
    var up := Database(Untouched, rows);
    assert Up(start, versions, i + 2, NO_OPS).0 == up;
    var g := NewestIsEarlier(rows);
    HoleIsNoPrefix(versions, i + 2, g);
    var down := Database(Untouched, Without(rows, rows[g]));
    assert DownAll(up, [rows[g]], 1, NO_OPS) == DownAll(down, [], 0, NO_OPS);
    var commands := [UpCommand(i + 2), DownCommand(1, 1)];
    assert commands[1..] == [DownCommand(1, 1)];
    assert ExecuteAll(up, versions, commands[1..], NO_OPS) == ExecuteAll(down, versions, [], NO_OPS);
  }

  /** The recorded versions are a prefix of the list after every run, and so no rollback leaves a hole,
      exactly when the paths sort as the versions do. */
  lemma PrefixExactlyWhenOrdersAgree(versions: seq<string>)
    requires Distinct(versions)
    ensures (forall commands :: RecordsPrefix(Recorded(versions, commands), versions)) <==> Increasing(versions)
  {
    if Increasing(versions) {
      forall commands ensures RecordsPrefix(Recorded(versions, commands), versions) {
        assert versions[..0] == [];
        NoOpsUndo();
        var m := EveryRunHolds(Database(Untouched, []), Untouched, versions, commands, NO_OPS, 0);
      }
    } else {
      assert Increasing(versions[..1]);
      var i := FirstInversion(versions, 0);
      InversionLeavesHole(versions, i);
    }
  }
}
