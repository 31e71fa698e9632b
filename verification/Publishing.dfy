/**
 The image server's repository (cmd/image-publisher): sync, promote, demote, severity and
 prune over the update.json of each release, the changelogs listed in it, and index.json.
 */
module ChangelogNames {
  /** The file a changelog is listed under (changelog.go:170). */
  function ChangelogName(arch: string, channel: string): (s: string) {
    arch + "/" + ("changelog-" + channel + ".yaml.gz")
  }

  /** What demote looks for in a file name (main_demote.go:90). */
  function Pattern(channel: string): (s: string) {
    "changelog-" + channel + ".yaml"
  }

  predicate OccursAt(s: string, p: string, i: int) {
    0 <= i <= |s| - |p| && s[i..i + |p|] == p
  }

  /** strings.Contains. */
  predicate Contains(s: string, p: string) {
    exists i :: 0 <= i <= |s| && OccursAt(s, p, i)
  }

  predicate HasPrefix(s: string, t: string) {
    |t| <= |s| && s[..|t|] == t
  }

  predicate HasSuffix(s: string, t: string) {
    |t| <= |s| && s[|s| - |t|..] == t
  }

  /** An architecture's name, as far as it matters here. */
  predicate IsArch(arch: string) {
    !Contains(arch, "changelog-")
  }

  /** Another channel whose changelogs demoting `channel` takes for its own. */
  predicate Clashing(c: string, channel: string) {
    || HasPrefix(c, channel + ".yaml")
    || HasSuffix(c, "changelog-" + channel)
    || Contains(c, "changelog-" + channel + ".yaml")
  }

  lemma {:induction false} Occurring(s: string, p: string, i: int)
    requires OccursAt(s, p, i)
    ensures forall k :: i <= k < i + |p| ==> s[k] == p[k - i]
  {
  }

  lemma {:induction false} Occurs(s: string, p: string, i: int)
    requires 0 <= i <= |s| - |p| && forall k :: i <= k < i + |p| ==> s[k] == p[k - i]
    ensures OccursAt(s, p, i)
  {
  }

  /** A match starts after the slash. */
  lemma {:induction false} MatchAfterSlash(arch: string, f: string, p: string, i: int)
    requires IsArch(arch) && OccursAt(arch + "/" + f, "changelog-" + p, i)
    ensures i > |arch| && OccursAt(f, "changelog-" + p, i - |arch| - 1)
  {
    var s, q := arch + "/" + f, "changelog-" + p;
    Occurring(s, q, i);
    assert forall k :: 0 <= k < 10 ==> q[k] == "changelog-"[k];
    assert s[|arch|] == '/' && forall k :: 0 <= k < |arch| ==> s[k] == arch[k];
    assert forall k :: i <= k < i + 10 ==> s[k] != '/';
    if i + 10 <= |arch| { Occurs(arch, "changelog-", i); }
    assert forall k :: 0 <= k < |f| ==> f[k] == s[k + |arch| + 1];
    if i > |arch| { Occurs(f, q, i - |arch| - 1); }
  }

  /** In the file's own name it starts at the front, or inside the channel's part. */
  lemma {:induction false} MatchInName(c: string, p: string, i: int)
    requires OccursAt("changelog-" + c, "changelog-" + p, i)
    ensures i == 0 || i >= 10
  {
    var f, q := "changelog-" + c, "changelog-" + p;
    Occurring(f, q, i);
    assert q[0] == 'c' && f[i] == 'c';
    assert forall k :: 0 < k < 10 ==> f[k] == "changelog-"[k] && f[k] != 'c';
  }

  /** What comes after a common front. */
  lemma {:induction false} AfterFront(front: string, c: string, p: string)
    requires OccursAt(front + c, front + p, 0)
    ensures OccursAt(c, p, 0)
  {
    assert (front + c)[..|front + p|] == front + p;
    assert (front + c)[..|front + p|] == front + c[..|p|];
    assert c[..|p|] == (front + c[..|p|])[|front|..] && p == (front + p)[|front|..];
  }

  lemma {:induction false} BeyondFront(front: string, c: string, q: string, i: int)
    requires OccursAt(front + c, q, i) && i >= |front|
    ensures OccursAt(c, q, i - |front|)
  {
    assert (front + c)[i..i + |q|] == c[i - |front|..i - |front| + |q|];
  }

  /** The ".yaml" of the pattern lies in the channel's name, or is the file's own. */
  lemma {:induction false} MatchEnd(c: string, x: string, i: int)
    requires OccursAt(c + ".yaml.gz", x + ".yaml", i)
    ensures OccursAt(c, x + ".yaml", i) || (i + |x| == |c| && c[i..] == x)
  {
    var g, q := c + ".yaml.gz", x + ".yaml";
    Occurring(g, q, i);
    assert forall k :: 0 <= k < |c| ==> g[k] == c[k];
    assert forall k :: |c| <= k < |g| ==> g[k] == ".yaml.gz"[k - |c|];
    assert forall k :: |x| <= k < |q| ==> q[k] == ".yaml"[k - |x|];
    if i + |q| <= |c| {
      Occurs(c, q, i);
    } else {
      assert g[|c|] == '.' && g[i + |x|] == '.';
      assert i + |x| == |c|;
      assert forall k :: 0 <= k < |x| ==> c[i + k] == x[k];
    }
  }

  lemma {:induction false} MatchMeans(arch: string, c: string, channel: string)
    requires IsArch(arch) && Contains(ChangelogName(arch, c), Pattern(channel))
    ensures c == channel || Clashing(c, channel)
  {
    var y := channel + ".yaml";
    assert Pattern(channel) == "changelog-" + y;
    assert "changelog-" + c + ".yaml.gz" == "changelog-" + (c + ".yaml.gz");
    var i :| OccursAt(ChangelogName(arch, c), Pattern(channel), i);
    MatchAfterSlash(arch, "changelog-" + (c + ".yaml.gz"), y, i);
    var o := i - |arch| - 1;
    MatchInName(c + ".yaml.gz", y, o);
    if o == 0 {
      AfterFront("changelog-", c + ".yaml.gz", y);
      MatchEnd(c, channel, 0);
    } else {
      BeyondFront("changelog-", c + ".yaml.gz", "changelog-" + y, o);
      assert "changelog-" + y == "changelog-" + channel + ".yaml";
      MatchEnd(c, "changelog-" + channel, o - 10);
    }
  }

  lemma {:induction false} ClashAtFront(arch: string, channel: string, rest: string)
    ensures Contains(ChangelogName(arch, channel + ".yaml" + rest), Pattern(channel))
  {
    assert ChangelogName(arch, channel + ".yaml" + rest) == (arch + "/") + Pattern(channel) + (rest + ".yaml.gz");
    OccursBetween(arch + "/", Pattern(channel), rest + ".yaml.gz");
  }

  lemma {:induction false} ClashAtEnd(arch: string, front: string, channel: string)
    ensures Contains(ChangelogName(arch, front + ("changelog-" + channel)), Pattern(channel))
  {
    var lead := arch + "/" + "changelog-" + front;
    assert ChangelogName(arch, front + ("changelog-" + channel)) == lead + Pattern(channel) + ".gz";
    OccursBetween(lead, Pattern(channel), ".gz");
  }

  lemma {:induction false} ClashInside(arch: string, front: string, channel: string, rest: string)
    ensures Contains(ChangelogName(arch, front + Pattern(channel) + rest), Pattern(channel))
  {
    var lead := arch + "/" + "changelog-" + front;
    assert ChangelogName(arch, front + Pattern(channel) + rest) == lead + Pattern(channel) + (rest + ".yaml.gz");
    OccursBetween(lead, Pattern(channel), rest + ".yaml.gz");
  }

  lemma {:induction false} Split(c: string, p: string, i: int)
    requires OccursAt(c, p, i)
    ensures c == c[..i] + p + c[i + |p|..]
  {
  }

  lemma {:induction false} ClashMatches(arch: string, c: string, channel: string)
    requires Clashing(c, channel)
    ensures Contains(ChangelogName(arch, c), Pattern(channel))
  {
    if HasPrefix(c, channel + ".yaml") {
      assert c == channel + ".yaml" + c[|channel| + 5..];
      ClashAtFront(arch, channel, c[|channel| + 5..]);
    } else if HasSuffix(c, "changelog-" + channel) {
      var n := |c| - 10 - |channel|;
      assert c == c[..n] + ("changelog-" + channel);
      ClashAtEnd(arch, c[..n], channel);
    } else {
      var p := Pattern(channel);
      var i :| 0 <= i <= |c| && OccursAt(c, p, i);
      Split(c, p, i);
      ClashInside(arch, c[..i], channel, c[i + |p|..]);
    }
  }

  /** For all names: demoting a channel matches the changelogs of that channel and of the
      clashing ones, and no others. */
  lemma {:induction false} NameMatches(arch: string, c: string, channel: string)
    requires IsArch(arch)
    ensures Contains(ChangelogName(arch, c), Pattern(channel)) <==> c == channel || Clashing(c, channel)
  {
    if Contains(ChangelogName(arch, c), Pattern(channel)) { MatchMeans(arch, c, channel); }
    if c == channel { OwnNameMatches(arch, c); }
    if Clashing(c, channel) { ClashMatches(arch, c, channel); }
  }

  lemma {:induction false} OwnNameMatches(arch: string, channel: string)
    ensures Contains(ChangelogName(arch, channel), Pattern(channel))
  {
    assert ChangelogName(arch, channel) == (arch + "/") + Pattern(channel) + ".gz";
    OccursBetween(arch + "/", Pattern(channel), ".gz");
  }

  lemma {:induction false} OccursBetween(a: string, p: string, b: string)
    ensures Contains(a + p + b, p)
  {
    assert OccursAt(a + p + b, p, |a|);
  }
}

module Publishing {
  import opened Wrappers
  import opened Versions
  import opened Releases
  import opened ReleaseIndex
  import opened ReleaseSelection
  import opened Retention
  import opened ChangelogNames

  // ----- updates

  /** The part of a file name before its first slash. */
  function ArchOf(filename: string): (arch: string) {
    if filename == [] || filename[0] == '/' then [] else [filename[0]] + ArchOf(filename[1..])
  }

  /** What an import lists: no changelogs yet, and manifests under their architecture's directory. */
  predicate ImportedFiles(files: seq<File>) {
    forall i :: 0 <= i < |files| ==>
      files[i].kind != Changelog && (files[i].kind == ImageManifest ==> IsArch(ArchOf(files[i].filename)))
  }

  /** A listed changelog belongs to a channel the update is in. */
  predicate ChangelogListed(u: Update, f: File) {
    exists k :: 0 <= k < |u.channels| && f.filename == ChangelogName(f.architecture, u.channels[k])
  }

  predicate FileOk(u: Update, f: File) {
    && (f.kind == ImageManifest ==> IsArch(ArchOf(f.filename)))
    && (f.kind == Changelog ==> IsArch(f.architecture) && ChangelogListed(u, f))
  }

  /** Channels without duplicates, and changelogs only for channels the update is in. */
  predicate UpdateOk(u: Update) {
    DistinctChannels(u) && forall i :: 0 <= i < |u.files| ==> FileOk(u, u.files[i])
  }

  function ManifestArchs(files: seq<File>): (s: set<string>) {
    set i | 0 <= i < |files| && files[i].kind == ImageManifest :: ArchOf(files[i].filename)
  }

  /** One changelog per architecture that has a manifest. */
  predicate ChangelogsFor(files: seq<File>, channel: string, logs: seq<File>) {
    && (forall i :: 0 <= i < |logs| ==> IsChangelog(logs[i], channel))
    && Archs(logs) == ManifestArchs(files)
    && forall i, j :: 0 <= i < j < |logs| ==> logs[i].architecture != logs[j].architecture
  }

  function Archs(logs: seq<File>): (s: set<string>) {
    set i | 0 <= i < |logs| :: logs[i].architecture
  }

  predicate IsChangelog(f: File, channel: string) {
    f.kind == Changelog && f.component == "os" && f.filename == ChangelogName(f.architecture, channel)
  }

  function Promoted(u: Update, channel: string, logs: seq<File>): (r: Update) {
    u.(channels := u.channels + [channel], files := u.files + logs)
  }

  predicate Matches(f: File, channel: string) {
    f.kind == Changelog && Contains(f.filename, Pattern(channel))
  }

  function WithoutChannel(channels: seq<string>, channel: string): (r: seq<string>) {
    if channels == [] then []
    else
      var n := |channels| - 1;
      WithoutChannel(channels[..n], channel) + (if channels[n] == channel then [] else [channels[n]])
  }

  function WithoutChangelogs(files: seq<File>, channel: string): (r: seq<File>) {
    if files == [] then []
    else
      var n := |files| - 1;
      WithoutChangelogs(files[..n], channel) + (if Matches(files[n], channel) then [] else [files[n]])
  }

  function Demoted(u: Update, channel: string): (r: Update) {
    u.(channels := WithoutChannel(u.channels, channel), files := WithoutChangelogs(u.files, channel))
  }

  // ----- what promote and demote keep

  lemma {:induction false} PromotedOk(u: Update, channel: string, logs: seq<File>)
    requires UpdateOk(u) && channel !in u.channels && ChangelogsFor(u.files, channel, logs)
    ensures UpdateOk(Promoted(u, channel, logs))
  {
    var r := Promoted(u, channel, logs);
    forall i | 0 <= i < |r.files| ensures FileOk(r, r.files[i]) {
      if i < |u.files| {
        StillListed(u, r, u.files[i]);
      } else {
        var f := logs[i - |u.files|];
        assert r.channels[|u.channels|] == channel;
        ChangelogArch(u, logs, i - |u.files|, channel);
      }
    }
  }

  lemma {:induction false} ChangelogArch(u: Update, logs: seq<File>, i: nat, channel: string)
    requires UpdateOk(u) && ChangelogsFor(u.files, channel, logs) && i < |logs|
    ensures IsArch(logs[i].architecture)
  {
    assert logs[i].architecture in ManifestArchs(u.files);
    var j :| 0 <= j < |u.files| && u.files[j].kind == ImageManifest && ArchOf(u.files[j].filename) == logs[i].architecture;
    assert FileOk(u, u.files[j]);
  }

  lemma {:induction false} StillListed(u: Update, r: Update, f: File)
    requires FileOk(u, f) && u.channels <= r.channels
    ensures FileOk(r, f)
  {
  }

  lemma {:induction false} WithoutChannelFacts(channels: seq<string>, channel: string)
    requires Unrepeated(channels)
    ensures Unrepeated(WithoutChannel(channels, channel))
    ensures forall c :: c in WithoutChannel(channels, channel) <==> c in channels && c != channel
  {
    if channels != [] {
      var n := |channels| - 1;
      WithoutChannelFacts(channels[..n], channel);
      assert channels == channels[..n] + [channels[n]];
      assert channels[n] !in channels[..n];
    }
  }

  lemma {:induction false} FilesSnoc(files: seq<File>, f: File, channel: string)
    ensures WithoutChangelogs(files + [f], channel)
         == if Matches(f, channel) then WithoutChangelogs(files, channel) else WithoutChangelogs(files, channel) + [f]
  {
  }

  /** Some listed file matches. */
  predicate AnyMatch(files: seq<File>, channel: string) {
    exists i :: 0 <= i < |files| && Matches(files[i], channel)
  }

  lemma {:induction false} AnyMatchSnoc(files: seq<File>, f: File, channel: string)
    ensures AnyMatch(files + [f], channel) <==> AnyMatch(files, channel) || Matches(f, channel)
  {
    var r := files + [f];
    assert r[|files|] == f;
    if AnyMatch(files, channel) {
      var i :| 0 <= i < |files| && Matches(files[i], channel);
      assert r[i] == files[i];
    }
  }

  /** Nothing changes exactly when nothing matches. */
  lemma {:induction false} WithoutChangelogsSame(files: seq<File>, channel: string)
    ensures !AnyMatch(files, channel) ==> WithoutChangelogs(files, channel) == files
    ensures |WithoutChangelogs(files, channel)| <= |files|
    ensures AnyMatch(files, channel) ==> |WithoutChangelogs(files, channel)| < |files|
  {
    if files != [] {
      var n := |files| - 1;
      var front, last := files[..n], files[n];
      assert files == front + [last];
      WithoutChangelogsSame(front, channel);
      FilesSnoc(front, last, channel);
      AnyMatchSnoc(front, last, channel);
    }
  }

  /** What is left of the files is what does not match. */
  lemma {:induction false} WithoutChangelogsMember(files: seq<File>, channel: string, f: File)
    ensures f in WithoutChangelogs(files, channel) <==> f in files && !Matches(f, channel)
  {
    if files != [] {
      var n := |files| - 1;
      var front, last := files[..n], files[n];
      assert files == front + [last];
      FilesSnoc(front, last, channel);
      WithoutChangelogsMember(front, channel, f);
    }
  }

  /** Demoting leaves channels without duplicates and no changelog of a channel left. */
  lemma {:induction false} DemotedOk(u: Update, channel: string)
    requires UpdateOk(u)
    ensures UpdateOk(Demoted(u, channel))
    ensures forall c :: c in Demoted(u, channel).channels <==> c in u.channels && c != channel
  {
    var r := Demoted(u, channel);
    WithoutChannelFacts(u.channels, channel);
    forall i | 0 <= i < |r.files| ensures FileOk(r, r.files[i]) {
      var f := r.files[i];
      WithoutChangelogsMember(u.files, channel, f);
      var j :| 0 <= j < |u.files| && u.files[j] == f;
      if f.kind == Changelog { StaysListed(u, r, f, channel); }
    }
  }

  lemma {:induction false} StaysListed(u: Update, r: Update, f: File, channel: string)
    requires f.kind == Changelog && ChangelogListed(u, f) && !Matches(f, channel)
    requires forall c :: c in u.channels && c != channel ==> c in r.channels
    ensures ChangelogListed(r, f)
  {
    var k :| 0 <= k < |u.channels| && f.filename == ChangelogName(f.architecture, u.channels[k]);
    OwnNameMatches(f.architecture, u.channels[k]);
    assert u.channels[k] in r.channels;
    var m :| 0 <= m < |r.channels| && r.channels[m] == u.channels[k];
  }

  // ----- promote, then demote

  lemma {:induction false} WithoutChangelogsAppend(files: seq<File>, logs: seq<File>, channel: string)
    requires forall i :: 0 <= i < |logs| ==> Matches(logs[i], channel)
    ensures WithoutChangelogs(files + logs, channel) == WithoutChangelogs(files, channel)
  {
    if logs == [] {
      assert files + logs == files;
    } else {
      var n := |logs| - 1;
      WithoutChangelogsAppend(files, logs[..n], channel);
      var all := files + logs;
      assert all[..|all| - 1] == files + logs[..n];
      assert all[|all| - 1] == logs[n];
      var w := WithoutChangelogs(files, channel);
      assert w + [] == w;
    }
  }

  lemma {:induction false} WithoutAbsentChannel(channels: seq<string>, channel: string)
    requires channel !in channels
    ensures WithoutChannel(channels, channel) == channels
  {
    if channels != [] {
      var n := |channels| - 1;
      WithoutAbsentChannel(channels[..n], channel);
      assert channels == channels[..n] + [channels[n]];
    }
  }

  lemma {:induction false} WithoutLastChannel(channels: seq<string>, channel: string)
    requires channel !in channels
    ensures WithoutChannel(channels + [channel], channel) == channels
  {
    WithoutAbsentChannel(channels, channel);
    assert (channels + [channel])[..|channels|] == channels;
    assert channels + [] == channels;
  }

  /** A channel of the update that has a changelog listed and whose name clashes with the given one. */
  predicate NameClash(u: Update, channel: string) {
    exists i, k :: 0 <= i < |u.files| && 0 <= k < |u.channels| && u.files[i].kind == Changelog
      && u.files[i].filename == ChangelogName(u.files[i].architecture, u.channels[k])
      && Clashing(u.channels[k], channel)
  }

  lemma {:induction false} MatchIsClash(u: Update, channel: string, i: nat)
    requires UpdateOk(u) && channel !in u.channels
    requires i < |u.files| && Matches(u.files[i], channel)
    ensures NameClash(u, channel)
  {
    var f := u.files[i];
    assert FileOk(u, f);
    var k :| 0 <= k < |u.channels| && f.filename == ChangelogName(f.architecture, u.channels[k]);
    NameMatches(f.architecture, u.channels[k], channel);
  }

  lemma {:induction false} ClashIsMatch(u: Update, channel: string)
    requires UpdateOk(u) && NameClash(u, channel)
    ensures AnyMatch(u.files, channel)
  {
    var i, k :| 0 <= i < |u.files| && 0 <= k < |u.channels| && u.files[i].kind == Changelog
      && u.files[i].filename == ChangelogName(u.files[i].architecture, u.channels[k])
      && Clashing(u.channels[k], channel);
    assert FileOk(u, u.files[i]);
    NameMatches(u.files[i].architecture, u.channels[k], channel);
    assert Matches(u.files[i], channel);
  }

  /** Demoting what was just promoted gives the update back exactly, unless another channel's
      name clashes. */
  lemma {:induction false} PromoteThenDemote(u: Update, channel: string, logs: seq<File>)
    requires UpdateOk(u) && channel !in u.channels
    requires ChangelogsFor(u.files, channel, logs)
    ensures Demoted(Promoted(u, channel, logs), channel) == u <==> !NameClash(u, channel)
  {
    forall i | 0 <= i < |logs| ensures Matches(logs[i], channel) {
      OwnNameMatches(logs[i].architecture, channel);
    }
    WithoutChangelogsAppend(u.files, logs, channel);
    WithoutLastChannel(u.channels, channel);
    WithoutChangelogsSame(u.files, channel);
    if AnyMatch(u.files, channel) {
      var i :| 0 <= i < |u.files| && Matches(u.files[i], channel);
      MatchIsClash(u, channel, i);
    }
    if NameClash(u, channel) { ClashIsMatch(u, channel); }
  }

  /** Such a clash does lose a changelog: an update in a clashing channel, with one changelog
      there, is not given back. */
  lemma {:induction false} ClashLosesChangelog(version: string, arch: string, c: string, channel: string)
    requires IsArch(arch) && c != channel && Clashing(c, channel)
    ensures var log := File(arch, "os", ChangelogName(arch, c), "", Changelog);
      var u := Update(version, [c], [log], "none");
      && UpdateOk(u) && ChangelogsFor(u.files, channel, [])
      && Demoted(Promoted(u, channel, []), channel) != u
  {
    var log := File(arch, "os", ChangelogName(arch, c), "", Changelog);
    var u := Update(version, [c], [log], "none");
    assert u.channels[0] == c && u.files[0] == log;
    assert ChangelogListed(u, log);
    assert NameClash(u, channel);
    PromoteThenDemote(u, channel, []);
  }

  // ----- the repository

  datatype Outcome = Done | AlreadyImported | ImportFailed | NoSuchImage | AlreadyInChannel | NotInChannel | UnsupportedSeverity

  const SEVERITIES: set<string> := {"none", "low", "medium", "high", "critical"}

  predicate AllOk(dirs: Directories) {
    Named(dirs) && forall v :: v in dirs && dirs[v].Some? ==> UpdateOk(dirs[v].value)
  }

  lemma {:induction false} EmptyDirectory(dirs: Directories, v: string)
    requires v !in dirs
    ensures Published(dirs[v := None]) == Published(dirs)
  {
    var more := dirs[v := None];
    forall u | u in Published(dirs) ensures u in Published(more) {
      var w :| w in dirs && dirs[w].Some? && dirs[w].value == u;
      assert w in more && more[w] == dirs[w];
    }
  }

  /** The directories left once `unused` are deleted. */
  function Without(dirs: Directories, unused: set<string>): (r: Directories) {
    map v | v in dirs && v !in unused :: dirs[v]
  }

  lemma {:induction false} ArchOfName(arch: string, rest: string)
    requires forall i :: 0 <= i < |arch| ==> arch[i] != '/'
    ensures ArchOf(arch + "/" + rest) == arch
  {
    if arch == [] {
      assert (arch + "/" + rest)[0] == '/';
    } else {
      assert (arch + "/" + rest)[1..] == arch[1..] + "/" + rest;
      ArchOfName(arch[1..], rest);
      assert arch == [arch[0]] + arch[1..];
    }
  }

  /** Every log is a changelog of the channel for an architecture that has a manifest, and every such
      architecture has exactly one. */
  predicate OneEach(files: seq<File>, channel: string, logs: seq<File>) {
    && (forall i :: 0 <= i < |logs| ==>
          && logs[i].kind == Changelog && logs[i].component == "os"
          && logs[i].filename == logs[i].architecture + "/" + ("changelog-" + channel + ".yaml.gz"))
    && (forall i :: 0 <= i < |logs| ==> HasManifest(files, logs[i].architecture))
    && (forall k :: 0 <= k < |files| && files[k].kind == ImageManifest ==>
          exists i :: 0 <= i < |logs| && logs[i].architecture == ArchOf(files[k].filename))
    && forall i, j :: 0 <= i < j < |logs| ==> logs[i].architecture != logs[j].architecture
  }

  predicate HasManifest(files: seq<File>, arch: string) {
    exists k :: 0 <= k < |files| && files[k].kind == ImageManifest && ArchOf(files[k].filename) == arch
  }

  lemma {:induction false} ChangelogsAreOneEach(files: seq<File>, channel: string, logs: seq<File>)
    requires ChangelogsFor(files, channel, logs)
    ensures OneEach(files, channel, logs)
  {
    forall i | 0 <= i < |logs| ensures HasManifest(files, logs[i].architecture) {
      assert logs[i].architecture in Archs(logs);
    }
    forall k | 0 <= k < |files| && files[k].kind == ImageManifest
      ensures exists i :: 0 <= i < |logs| && logs[i].architecture == ArchOf(files[k].filename)
    {
      assert ArchOf(files[k].filename) in Archs(logs);
    }
  }

  /** The update's channel is the version a reader finds exactly when no newer release carries it. */
  ghost predicate FoundUnlessOlder(index: seq<Update>, v: string, channel: string) {
    (FirstOf(index, channel) < |index| && index[FirstOf(index, channel)].version == v)
    <==> (forall w :: w in Members(index) && channel in w.channels && w.version != v ==> Less(w.version, v))
  }

  lemma {:induction false} ListedIsFound(index: seq<Update>, dirs: Directories, v: string, channel: string)
    requires Named(dirs) && IsIndexOf(index, dirs) && v in dirs && dirs[v].Some? && channel in dirs[v].value.channels
    ensures FoundUnlessOlder(index, v, channel)
  {
    var u, k := dirs[v].value, FirstOf(index, channel);
    assert u in Members(index);
    FirstIsNewest(index, channel, u);
    forall w | w in Members(index) && w.version == v ensures w == u {
      assert w in Published(dirs);
    }
    if k < |index| { assert index[k] in Members(index); }
  }

  lemma {:induction false} IndexedDistinct(index: seq<Update>, dirs: Directories)
    requires AllOk(dirs) && IsIndexOf(index, dirs)
    ensures forall i :: 0 <= i < |index| ==> DistinctChannels(index[i])
  {
    forall i | 0 <= i < |index| ensures DistinctChannels(index[i]) {
      assert index[i] in Members(index);
    }
  }

  /** What the index of the pruned directories is: the retained part of the old index. */
  lemma {:induction false} PrunedIndex(index: seq<Update>, dirs: Directories, retention: int, unused: set<string>)
    requires AllOk(dirs) && IsIndexOf(index, dirs)
    requires unused == set i | 0 <= i < |index| && !Kept(index, retention, i) :: index[i].version
    ensures IsIndexOf(Retain(index, retention), Without(dirs, unused))
  {
    var r := Retain(index, retention);
    RetainedDescends(index, retention);
    RetainedMembers(index, retention);
    forall u ensures u in KeptMembers(index, retention) <==> u in Published(Without(dirs, unused)) {
      KeptIsPublished(index, dirs, retention, unused, u);
    }
    assert Members(r) == Published(Without(dirs, unused));
    forall i | 0 <= i < |r| ensures IsRelease(r[i].version) {
      assert r[i] in Members(index);
    }
  }

  lemma {:induction false} KeptIsPublished(index: seq<Update>, dirs: Directories, retention: int, unused: set<string>, u: Update)
    requires AllOk(dirs) && IsIndexOf(index, dirs)
    requires unused == set i | 0 <= i < |index| && !Kept(index, retention, i) :: index[i].version
    ensures u in KeptMembers(index, retention) <==> u in Published(Without(dirs, unused))
  {
    if u in KeptMembers(index, retention) {
      var i :| 0 <= i < |index| && Kept(index, retention, i) && index[i] == u;
      assert u in Members(index);
      assert u.version !in unused by {
        if u.version in unused {
          var j :| 0 <= j < |index| && !Kept(index, retention, j) && index[j].version == u.version;
          SameVersionSamePlace(index, i, j);
        }
      }
      assert Without(dirs, unused)[u.version] == Some(u);
    }
    if u in Published(Without(dirs, unused)) {
      assert u in Published(dirs);
      var i :| 0 <= i < |index| && index[i] == u;
      assert Kept(index, retention, i);
    }
  }

  /** generateChangelog: the prior version is the first of the channel in the index as it is,
      and every architecture with a manifest gets one changelog, in any order. `hash` stands
      for the contents, which depend on the prior version. */
  method GenerateChangelog(index: seq<Update>, files: seq<File>, channel: string, hash: (string, string) -> string)
    returns (logs: seq<File>)
    ensures ChangelogsFor(files, channel, logs)
    ensures var k := FirstOf(index, channel);
      var prior := if k < |index| then index[k].version else "";
      forall i :: 0 <= i < |logs| ==> logs[i].hash == hash(prior, logs[i].architecture)
  {
    var prior := PriorVersion(index, channel);
    var archs: set<string> := {};
    for i := 0 to |files|
      invariant archs == set j | 0 <= j < i && files[j].kind == ImageManifest :: ArchOf(files[j].filename)
    {
      if files[i].kind == ImageManifest { archs := archs + {ArchOf(files[i].filename)}; }
    }
    logs := [];
    var todo := archs;
    while todo != {}
      invariant todo <= archs
      invariant Archs(logs) == archs - todo
      invariant forall i, j :: 0 <= i < j < |logs| ==> logs[i].architecture != logs[j].architecture
      invariant forall i :: 0 <= i < |logs| ==> IsChangelog(logs[i], channel) && logs[i].hash == hash(prior, logs[i].architecture)
    {
      var arch :| arch in todo;
      todo := todo - {arch};
      ghost var before := logs;
      assert forall i :: 0 <= i < |before| ==> before[i].architecture in Archs(before);
      logs := logs + [File(arch, "os", ChangelogName(arch, channel), hash(prior, arch), Changelog)];
      ArchsSnoc(before, logs[|before|]);
    }
  }

  lemma {:induction false} ArchsSnoc(logs: seq<File>, f: File)
    ensures Archs(logs + [f]) == Archs(logs) + {f.architecture}
  {
    var r := logs + [f];
    assert r[|logs|] == f;
    forall a | a in Archs(logs) ensures a in Archs(r) {
      var i :| 0 <= i < |logs| && logs[i].architecture == a;
      assert r[i].architecture == a;
    }
  }

  /** The two loops of demote. */
  method RemoveChannel(u: Update, channel: string) returns (r: Update)
    ensures r == Demoted(u, channel)
  {
    var newChannels := [];
    for i := 0 to |u.channels|
      invariant newChannels == WithoutChannel(u.channels[..i], channel)
    {
      assert u.channels[..i + 1][..i] == u.channels[..i];
      if u.channels[i] == channel { continue; }
      newChannels := newChannels + [u.channels[i]];
    }
    assert u.channels[..|u.channels|] == u.channels;
    var newFiles := [];
    for i := 0 to |u.files|
      invariant newFiles == WithoutChangelogs(u.files[..i], channel)
    {
      assert u.files[..i + 1][..i] == u.files[..i];
      if u.files[i].kind == Changelog && Contains(u.files[i].filename, Pattern(channel)) { continue; }
      newFiles := newFiles + [u.files[i]];
    }
    assert u.files[..|u.files|] == u.files;
    r := u.(channels := newChannels, files := newFiles);
  }

  class Repository {
    var dirs: Directories
    var index: seq<Update>

    /** What holds between any two commands. */
    ghost predicate Valid()
      reads this
    {
      AllOk(dirs) && IsIndexOf(index, dirs)
    }

    constructor ()
      ensures Valid() && dirs == map[] && index == []
    {
      dirs, index := map[], [];
    }

    /** sync: import a release, unless its directory is already there. A failed download leaves
        a directory without update.json. */
    method Sync(v: string, channel: string, files: seq<File>, severity: string, complete: bool, hash: (string, string) -> string)
      returns (r: Outcome, logs: seq<File>)
      requires Valid() && IsRelease(v) && ImportedFiles(files)
      modifies this
      ensures Valid()
      ensures r == if v in old(dirs) then AlreadyImported else if !complete then ImportFailed else Done
      ensures r == AlreadyImported ==> dirs == old(dirs) && index == old(index)
      ensures r == ImportFailed ==> dirs == old(dirs)[v := None] && index == old(index)
      ensures r == Done ==> ChangelogsFor(files, channel, logs)
      ensures r == Done ==> dirs == old(dirs)[v := Some(Update(v, [channel], files + logs, severity))]
      ensures r == Done ==> OneEach(files, channel, logs) && FoundUnlessOlder(index, v, channel)
    {
      logs := [];
      if v in dirs { return AlreadyImported, logs; }
      dirs := dirs[v := None];
      EmptyDirectory(old(dirs), v);
      if !complete { return ImportFailed, logs; }
      logs := GenerateChangelog(index, files, channel, hash);
      ghost var bare := Update(v, [], files, severity);
      assert bare.channels + [channel] == [channel];
      PromotedOk(bare, channel, logs);
      ChangelogsAreOneEach(files, channel, logs);
      dirs := dirs[v := Some(Update(v, [channel], files + logs, severity))];
      index := GenerateIndex(dirs);
      ListedIsFound(index, dirs, v, channel);
      return Done, logs;
    }

    /** promote: add the update to a channel, with changelogs against that channel's newest. */
    method Promote(v: string, channel: string, hash: (string, string) -> string) returns (r: Outcome, logs: seq<File>)
      requires Valid()
      modifies this
      ensures Valid()
      ensures r ==
        if v !in old(dirs) || old(dirs)[v].None? then NoSuchImage
        else if channel in old(dirs)[v].value.channels then AlreadyInChannel else Done
      ensures r != Done ==> dirs == old(dirs) && index == old(index)
      ensures r == Done ==> ChangelogsFor(old(dirs)[v].value.files, channel, logs)
      ensures r == Done ==> dirs == old(dirs)[v := Some(Promoted(old(dirs)[v].value, channel, logs))]
      ensures r == Done ==>
        var u, w := old(dirs)[v].value, dirs[v].value;
        && w.version == u.version && w.severity == u.severity && w.channels == u.channels + [channel]
        && w.files == u.files + logs && OneEach(u.files, channel, logs)
      ensures r == Done ==> FoundUnlessOlder(index, v, channel)
    {
      logs := [];
      if v !in dirs || dirs[v].None? { return NoSuchImage, logs; }
      var u := dirs[v].value;
      if channel in u.channels { return AlreadyInChannel, logs; }
      logs := GenerateChangelog(index, u.files, channel, hash);
      PromotedOk(u, channel, logs);
      ChangelogsAreOneEach(u.files, channel, logs);
      dirs := dirs[v := Some(u.(channels := u.channels + [channel], files := u.files + logs))];
      index := GenerateIndex(dirs);
      ListedIsFound(index, dirs, v, channel);
      return Done, logs;
    }

    /** demote: take the update out of a channel, with that channel's changelogs. */
    method Demote(v: string, channel: string) returns (r: Outcome)
      requires Valid()
      modifies this
      ensures Valid()
      ensures r ==
        if v !in old(dirs) || old(dirs)[v].None? then NoSuchImage
        else if channel !in old(dirs)[v].value.channels then NotInChannel else Done
      ensures r != Done ==> dirs == old(dirs) && index == old(index)
      ensures r == Done ==> dirs == old(dirs)[v := Some(Demoted(old(dirs)[v].value, channel))]
      ensures r == Done ==>
        var u, w := old(dirs)[v].value, dirs[v].value;
        && w.version == u.version && w.severity == u.severity
        && (forall c :: c in w.channels <==> c in u.channels && c != channel)
        && (forall f :: f in w.files <==> f in u.files && !(f.kind == Changelog && Contains(f.filename, "changelog-" + channel + ".yaml")))
    {
      if v !in dirs || dirs[v].None? { return NoSuchImage; }
      var u := dirs[v].value;
      if channel !in u.channels { return NotInChannel; }
      DemotedOk(u, channel);
      forall f ensures f in Demoted(u, channel).files <==> f in u.files && !(f.kind == Changelog && Contains(f.filename, "changelog-" + channel + ".yaml")) {
        WithoutChangelogsMember(u.files, channel, f);
      }
      var w := RemoveChannel(u, channel);
      dirs := dirs[v := Some(w)];
      index := GenerateIndex(dirs);
      return Done;
    }

    method SetSeverity(v: string, severity: string) returns (r: Outcome)
      requires Valid()
      modifies this
      ensures Valid()
      ensures r == if severity !in SEVERITIES then UnsupportedSeverity
        else if v !in old(dirs) || old(dirs)[v].None? then NoSuchImage else Done
      ensures r != Done ==> dirs == old(dirs) && index == old(index)
      ensures r == Done ==> dirs == old(dirs)[v := Some(old(dirs)[v].value.(severity := severity))]
    {
      if severity !in SEVERITIES { return UnsupportedSeverity; }
      if v !in dirs || dirs[v].None? { return NoSuchImage; }
      var u := dirs[v].value;
      var w := u.(severity := severity);
      assert forall i :: 0 <= i < |u.files| && FileOk(u, u.files[i]) ==> FileOk(w, w.files[i]);
      dirs := dirs[v := Some(w)];
      index := GenerateIndex(dirs);
      return Done;
    }

    /** prune: what is left of the index is exactly what the retention keeps. */
    method Prune(retention: int)
      requires Valid()
      modifies this
      ensures Valid()
      ensures index == Retain(old(index), retention)
      ensures forall v :: v in dirs ==> v in old(dirs) && dirs[v] == old(dirs)[v]
      ensures forall v :: v in old(dirs) && old(dirs)[v].None? ==> v in dirs
    {
      IndexedDistinct(index, dirs);
      var unused := UnusedVersions(index, retention);
      PrunedIndex(index, dirs, retention, unused);
      assert forall i :: 0 <= i < |index| ==> index[i] in Published(dirs) by {
        assert forall i :: 0 <= i < |index| ==> index[i] in Members(index);
      }
      ghost var kept := Retain(index, retention);
      dirs := Without(dirs, unused);
      index := GenerateIndex(dirs);
      IndexIsUnique(index, kept, dirs);
    }
  }

  /** Promoting and demoting again leaves the whole repository as it was, index included. */
  method PromoteAndBack(repo: Repository, v: string, channel: string, hash: (string, string) -> string)
    requires repo.Valid() && v in repo.dirs && repo.dirs[v].Some? && channel !in repo.dirs[v].value.channels
    requires !NameClash(repo.dirs[v].value, channel)
    modifies repo
    ensures repo.Valid() && repo.dirs == old(repo.dirs) && repo.index == old(repo.index)
  {
    ghost var dirs, index := repo.dirs, repo.index;
    var r, logs := repo.Promote(v, channel, hash);
    PromoteThenDemote(dirs[v].value, channel, logs);
    r := repo.Demote(v, channel);
    assert repo.dirs == dirs;
    IndexIsUnique(repo.index, index, dirs);
  }
}
