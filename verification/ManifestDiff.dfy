/**
 The difference between two manifests (manifests/manifests.go:139-200, 301-334), from which
 changelogs are made: packages removed, updated and added, then the same for artifacts. Only
 names and versions matter, so an entry is a name and a version.
 */
module ManifestDiff {
  datatype Package = Package(name: string, version: string)

  datatype Change = Change(before: Package, after: Package)

  datatype Changes = Changes(added: seq<Package>, removed: seq<Package>, updated: seq<Change>)

  /** slices.IndexFunc for a name. */
  function IndexOf(ps: seq<Package>, name: string): (i: int)
    ensures -1 <= i < |ps|
    ensures i >= 0 ==> ps[i].name == name && forall j :: 0 <= j < i ==> ps[j].name != name
    ensures i == -1 <==> forall j :: 0 <= j < |ps| ==> ps[j].name != name
  {
    if ps == [] then -1
    else if ps[0].name == name then 0
    else
      var i := IndexOf(ps[1..], name);
      assert forall j :: 0 < j < |ps| ==> ps[j] == ps[1..][j - 1];
      if i == -1 then -1 else i + 1
  }

  /** The entries of one list whose name is not in the other. */
  function Missing(ps: seq<Package>, others: seq<Package>): (r: seq<Package>) {
    if ps == [] then []
    else
      var p := ps[|ps| - 1];
      Missing(ps[..|ps| - 1], others) + (if IndexOf(others, p.name) == -1 then [p] else [])
  }

  function Updates(previous: seq<Package>, current: seq<Package>): (r: seq<Change>) {
    if previous == [] then []
    else
      var p := previous[|previous| - 1];
      var i := IndexOf(current, p.name);
      Updates(previous[..|previous| - 1], current)
      + (if i != -1 && p.version != current[i].version then [Change(p, current[i])] else [])
  }

  function Differences(previous: seq<Package>, current: seq<Package>): (d: Changes) {
    Changes(Missing(current, previous), Missing(previous, current), Updates(previous, current))
  }

  method DiffPackages(previous: seq<Package>, current: seq<Package>) returns (d: Changes)
    ensures d == Differences(previous, current)
  {
    var removed, updated, added := [], [], [];
    for k := 0 to |previous|
      invariant removed == Missing(previous[..k], current) && updated == Updates(previous[..k], current)
    {
      assert previous[..k + 1][..k] == previous[..k];
      var p := previous[k];
      var i := IndexOf(current, p.name);
      if i == -1 {
        removed := removed + [p];
      } else if p.version != current[i].version {
        updated := updated + [Change(p, current[i])];
      }
    }
    assert previous[..|previous|] == previous;
    for k := 0 to |current|
      invariant added == Missing(current[..k], previous)
    {
      assert current[..k + 1][..k] == current[..k];
      if IndexOf(previous, current[k].name) == -1 { added := added + [current[k]]; }
    }
    assert current[..|current|] == current;
    d := Changes(added, removed, updated);
  }

  // ----- the changelog entries

  datatype Manifest = Manifest(packages: seq<Package>, artifacts: seq<Package>)

  datatype Entries = Entries(added: seq<string>, updated: seq<string>, removed: seq<string>)

  function Line(p: Package): (s: string) {
    p.name + " version " + p.version
  }

  function UpdateLine(c: Change): (s: string) {
    c.before.name + " version " + c.before.version + " to version " + c.after.version
  }

  /** Lines correspond to changes one by one, packages before artifacts. */
  predicate LinesFor(lines: seq<string>, packages: seq<Package>, artifacts: seq<Package>) {
    var all := packages + artifacts;
    |lines| == |all| && forall i :: 0 <= i < |all| ==> lines[i] == Line(all[i])
  }

  method Lines(ps: seq<Package>) returns (lines: seq<string>)
    ensures |lines| == |ps| && forall i :: 0 <= i < |ps| ==> lines[i] == Line(ps[i])
  {
    lines := [];
    for k := 0 to |ps|
      invariant |lines| == k && forall i :: 0 <= i < k ==> lines[i] == Line(ps[i])
    {
      lines := lines + [Line(ps[k])];
    }
  }

  method Diff(a: Manifest, b: Manifest) returns (e: Entries)
    ensures var p, q := Differences(a.packages, b.packages), Differences(a.artifacts, b.artifacts);
      && LinesFor(e.added, p.added, q.added) && LinesFor(e.removed, p.removed, q.removed)
      && |e.updated| == |p.updated| + |q.updated|
      && forall i :: 0 <= i < |e.updated| ==> e.updated[i] == UpdateLine((p.updated + q.updated)[i])
  {
    var p := DiffPackages(a.packages, b.packages);
    var q := DiffPackages(a.artifacts, b.artifacts);
    var added := Lines(p.added + q.added);
    var removed := Lines(p.removed + q.removed);
    var updated: seq<string> := [];
    var us := p.updated + q.updated;
    for k := 0 to |us|
      invariant |updated| == k && forall i :: 0 <= i < k ==> updated[i] == UpdateLine(us[i])
    {
      updated := updated + [UpdateLine(us[k])];
    }
    e := Entries(added, updated, removed);
  }

  // ----- what the parts hold

  predicate Has(ps: seq<Package>, name: string) {
    IndexOf(ps, name) != -1
  }

  /** The entry that counts for a name: the first one. */
  function First(ps: seq<Package>, name: string): (p: Package)
    requires Has(ps, name)
    ensures p in ps && p.name == name
  {
    ps[IndexOf(ps, name)]
  }

  lemma {:induction false} FirstSnoc(ps: seq<Package>, p: Package, name: string)
    ensures Has(ps + [p], name) <==> Has(ps, name) || p.name == name
    ensures Has(ps, name) ==> First(ps + [p], name) == First(ps, name)
    ensures !Has(ps, name) && p.name == name ==> First(ps + [p], name) == p
  {
    var r := ps + [p];
    assert r[|ps|] == p && forall j :: 0 <= j < |ps| ==> r[j] == ps[j];
    var i := IndexOf(ps, name);
    if i >= 0 { assert r[i].name == name; }
  }

  lemma {:induction false} MissingSnoc(ps: seq<Package>, p: Package, others: seq<Package>)
    ensures Missing(ps + [p], others) == if Has(others, p.name) then Missing(ps, others) else Missing(ps, others) + [p]
  {
    assert (ps + [p])[..|ps|] == ps;
    assert Missing(ps, others) + [] == Missing(ps, others);
  }

  lemma {:induction false} MissingMember(ps: seq<Package>, others: seq<Package>, p: Package)
    ensures p in Missing(ps, others) <==> p in ps && !Has(others, p.name)
  {
    if ps != [] {
      MissingMember(ps[..|ps| - 1], others, p);
      assert ps == ps[..|ps| - 1] + [ps[|ps| - 1]];
    }
  }

  /** The first entry of a name stays the first. */
  lemma {:induction false} MissingFirst(ps: seq<Package>, others: seq<Package>, name: string)
    ensures Has(Missing(ps, others), name) <==> Has(ps, name) && !Has(others, name)
    ensures Has(ps, name) && !Has(others, name) ==> First(Missing(ps, others), name) == First(ps, name)
  {
    if ps != [] {
      var front, p := ps[..|ps| - 1], ps[|ps| - 1];
      assert ps == front + [p];
      MissingFirst(front, others, name);
      MissingSnoc(front, p, others);
      FirstSnoc(front, p, name);
      FirstSnoc(Missing(front, others), p, name);
    }
  }

  /** An update joins an old entry with the new entry of its name, if their versions differ. */
  lemma {:induction false} UpdatesMember(previous: seq<Package>, current: seq<Package>, c: Change)
    ensures c in Updates(previous, current) <==>
      && c.before in previous && Has(current, c.before.name)
      && c.after == First(current, c.before.name) && c.before.version != c.after.version
  {
    if previous != [] {
      var front, p := previous[..|previous| - 1], previous[|previous| - 1];
      UpdatesMember(front, current, c);
      assert previous == front + [p];
    }
  }

  lemma {:induction false} HasMember(ps: seq<Package>, p: Package)
    requires p in ps
    ensures Has(ps, p.name)
  {
  }

  /** No name is in two of the three parts. */
  lemma {:induction false} PartsAreDisjoint(a: seq<Package>, b: seq<Package>, p: Package, q: Package, c: Change)
    ensures var d := Differences(a, b);
      && !(p in d.added && q in d.removed && p.name == q.name)
      && !(p in d.added && c in d.updated && p.name == c.before.name)
      && !(p in d.removed && c in d.updated && p.name == c.before.name)
  {
    MissingMember(b, a, p);
    MissingMember(a, b, p);
    MissingMember(a, b, q);
    UpdatesMember(a, b, c);
    if q in a { HasMember(a, q); }
    if c.before in a { HasMember(a, c.before); }
  }

  /** Every entry of `a` that differs from what counts in `b` is what counts in `a`. */
  predicate Telling(a: seq<Package>, b: seq<Package>) {
    forall i :: 0 <= i < |a| && Has(b, a[i].name) && a[i].version != First(b, a[i].name).version ==>
      Has(a, a[i].name) && a[i] == First(a, a[i].name)
  }

  predicate Reversed(c: Change, d: Changes, e: Changes) {
    c in d.updated <==> Change(c.after, c.before) in e.updated
  }

  /** Swapping the manifests swaps added and removed, and turns every update around exactly when
      no second entry of a name tells a different story. */
  lemma {:induction false} SwapReverses(a: seq<Package>, b: seq<Package>)
    ensures var d, e := Differences(a, b), Differences(b, a);
      && e.added == d.removed && e.removed == d.added
      && ((forall c :: Reversed(c, d, e)) <==> Telling(a, b) && Telling(b, a))
  {
    var d, e := Differences(a, b), Differences(b, a);
    if Telling(a, b) && Telling(b, a) {
      forall c ensures Reversed(c, d, e) {
        TurnsAround(a, b, c);
        TurnsAround(b, a, Change(c.after, c.before));
      }
    }
    if forall c :: Reversed(c, d, e) {
      Tells(a, b);
      forall c ensures Reversed(c, e, d) { assert Reversed(Change(c.after, c.before), d, e); }
      Tells(b, a);
    }
  }

  lemma {:induction false} TurnsAround(a: seq<Package>, b: seq<Package>, c: Change)
    requires Telling(a, b)
    ensures c in Updates(a, b) ==> Change(c.after, c.before) in Updates(b, a)
  {
    UpdatesMember(a, b, c);
    UpdatesMember(b, a, Change(c.after, c.before));
  }

  lemma {:induction false} Tells(a: seq<Package>, b: seq<Package>)
    requires forall c :: Reversed(c, Differences(a, b), Differences(b, a))
    ensures Telling(a, b)
  {
    forall i | 0 <= i < |a| && Has(b, a[i].name) && a[i].version != First(b, a[i].name).version
      ensures Has(a, a[i].name) && a[i] == First(a, a[i].name)
    {
      var c := Change(a[i], First(b, a[i].name));
      UpdatesMember(a, b, c);
      assert Reversed(c, Differences(a, b), Differences(b, a));
      UpdatesMember(b, a, Change(c.after, c.before));
    }
  }

  /** A repeated name can break it: a second entry is reported as updated one way and not back. */
  lemma {:induction false} RepeatedNameDoesNotReverse(name: string, v: string, w: string)
    requires v != w
    ensures var a, b := [Package(name, v), Package(name, w)], [Package(name, v)];
      var c := Change(Package(name, w), Package(name, v));
      !Telling(a, b) && !Reversed(c, Differences(a, b), Differences(b, a))
  {
    var a, b := [Package(name, v), Package(name, w)], [Package(name, v)];
    var c := Change(Package(name, w), Package(name, v));
    assert a[1] == c.before && b[0] == c.after;
    assert First(b, name) == b[0] && First(a, name) == a[0];
    UpdatesMember(a, b, c);
    UpdatesMember(b, a, Change(c.after, c.before));
  }

  /** Distinct names are enough for that. */
  lemma {:induction false} DistinctNamesTell(a: seq<Package>, b: seq<Package>)
    requires forall i, j :: 0 <= i < j < |a| ==> a[i].name != a[j].name
    ensures Telling(a, b)
  {
    forall i | 0 <= i < |a| ensures Has(a, a[i].name) && a[i] == First(a, a[i].name) {
      HasMember(a, a[i]);
    }
  }

  // ----- the difference is a patch

  /** Names and versions; the first entry of a name counts. */
  function AsMap(ps: seq<Package>): (m: map<string, string>) {
    if ps == [] then map[]
    else
      var m, p := AsMap(ps[..|ps| - 1]), ps[|ps| - 1];
      if p.name in m then m else m[p.name := p.version]
  }

  /** The new sides of the updates. */
  function AfterMap(cs: seq<Change>): (m: map<string, string>) {
    if cs == [] then map[]
    else AfterMap(cs[..|cs| - 1])[cs[|cs| - 1].after.name := cs[|cs| - 1].after.version]
  }

  function NamesOf(ps: seq<Package>): (s: set<string>) {
    set i | 0 <= i < |ps| :: ps[i].name
  }

  /** Take away what was removed, then set what was updated and what was added. */
  function Patched(m: map<string, string>, d: Changes): (r: map<string, string>) {
    (m - NamesOf(d.removed)) + AfterMap(d.updated) + AsMap(d.added)
  }

  lemma {:induction false} AsMapAt(ps: seq<Package>, n: string)
    ensures n in AsMap(ps) <==> Has(ps, n)
    ensures Has(ps, n) ==> AsMap(ps)[n] == First(ps, n).version
  {
    if ps != [] {
      var front, p := ps[..|ps| - 1], ps[|ps| - 1];
      assert ps == front + [p];
      AsMapAt(front, n);
      AsMapAt(front, p.name);
      FirstSnoc(front, p, n);
    }
  }

  lemma {:induction false} NamesOfAt(ps: seq<Package>, n: string)
    ensures n in NamesOf(ps) <==> Has(ps, n)
  {
    if Has(ps, n) { assert ps[IndexOf(ps, n)].name in NamesOf(ps); }
  }

  lemma {:induction false} AfterMapAt(cs: seq<Change>, n: string)
    ensures n in AfterMap(cs) ==> exists c :: c in cs && c.after == Package(n, AfterMap(cs)[n])
    ensures n !in AfterMap(cs) ==> forall c :: c in cs ==> c.after.name != n
  {
    if cs != [] {
      var front, c := cs[..|cs| - 1], cs[|cs| - 1];
      AfterMapAt(front, n);
      assert cs == front + [c];
    }
  }

  /** What the patched map says of one name. */
  lemma {:induction false} PatchedAt(a: seq<Package>, b: seq<Package>, n: string)
    ensures var m := Patched(AsMap(a), Differences(a, b));
      && (n in m <==> n in AsMap(b)) && (n in m ==> m[n] == AsMap(b)[n])
  {
    var d := Differences(a, b);
    AsMapAt(a, n);
    AsMapAt(b, n);
    AsMapAt(d.added, n);
    MissingFirst(b, a, n);
    MissingFirst(a, b, n);
    NamesOfAt(d.removed, n);
    AfterMapAt(d.updated, n);
    if n in AfterMap(d.updated) {
      var c :| c in d.updated && c.after == Package(n, AfterMap(d.updated)[n]);
      UpdatesMember(a, b, c);
      HasMember(a, c.before);
    } else if Has(a, n) && Has(b, n) {
      UpdatesMember(a, b, Change(First(a, n), First(b, n)));
    }
  }

  /** Applying the difference to the old packages gives exactly the new ones. */
  lemma {:induction false} DiffIsPatch(a: seq<Package>, b: seq<Package>)
    ensures Patched(AsMap(a), Differences(a, b)) == AsMap(b)
  {
    forall n
      ensures var m := Patched(AsMap(a), Differences(a, b));
        && (n in m <==> n in AsMap(b)) && (n in m ==> m[n] == AsMap(b)[n])
    {
      PatchedAt(a, b, n);
    }
  }

  /** The lines as they are written. */
  lemma {:induction false} LinesRead(n: string, v: string, w: string)
    ensures Line(Package(n, v)) == n + " version " + v
    ensures UpdateLine(Change(Package(n, v), Package(n, w))) == n + " version " + v + " to version " + w
    ensures UpdateLine(Change(Package(n, v), Package(n, w))) == Line(Package(n, v)) + (" to version " + w)
  {
    assert n + " version " + v + " to version " + w == (n + " version " + v) + (" to version " + w);
  }
}
