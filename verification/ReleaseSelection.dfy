/**
 Who picks a release from an index, and how: the changelog generator
 (cmd/image-publisher/changelog.go:42-51), the image customizer
 (cmd/image-customizer/main.go:823-871) and the client
 (internal/providers/provider_images.go:377-517). They are written independently; on an
 index as published they name the same update.
 */
module ReleaseSelection {
  import opened Wrappers
  import opened Versions
  import opened Releases

  /** The reference: the update of a channel that every other one of that channel is older than. */
  predicate IsNewest(us: seq<Update>, channel: string, u: Update) {
    && u in Members(us) && InChannel(u, channel)
    && forall w :: w in Members(us) && InChannel(w, channel) && w != u ==> Less(w.version, u.version)
  }

  // ----- the changelog generator: the first of the channel

  /** The position of the first update of the channel, |us| if there is none. */
  function FirstOf(us: seq<Update>, channel: string): (k: nat)
    ensures k <= |us|
    ensures k < |us| ==> InChannel(us[k], channel)
    ensures forall j :: 0 <= j < k ==> !InChannel(us[j], channel)
  {
    if us == [] || InChannel(us[0], channel) then 0 else 1 + FirstOf(us[1..], channel)
  }

  method PriorVersion(index: seq<Update>, channel: string) returns (prior: string)
    ensures prior == if FirstOf(index, channel) < |index| then index[FirstOf(index, channel)].version else ""
  {
    prior := "";
    var i := 0;
    while i < |index|
      invariant 0 <= i <= |index| && prior == ""
      invariant forall j :: 0 <= j < i ==> !InChannel(index[j], channel)
    {
      if InChannel(index[i], channel) {
        prior := index[i].version;
        return;
      }
      i := i + 1;
    }
  }

  // ----- the customizer: the greatest string of the channel, or the version asked for

  datatype Filter = Filter(channel: string, version: string, architectures: seq<string>, types: seq<FileType>, components: seq<string>)

  datatype Assets = Assets(version: string, names: seq<string>) | VersionNotFound

  predicate WantedFile(f: File, req: Filter) {
    && (req.architectures == [] || f.architecture in req.architectures)
    && (req.types == [] || f.kind in req.types)
    && (req.components == [] || f.component in req.components)
  }

  function AssetNames(files: seq<File>, req: Filter): (names: seq<string>) {
    if files == [] then []
    else
      var last := files[|files| - 1];
      AssetNames(files[..|files| - 1], req) + (if WantedFile(last, req) then [last.filename] else [])
  }

  /** The update the customizer takes: the first with the version asked for, or else the first
      with the greatest version. */
  predicate Chosen(us: seq<Update>, req: Filter, k: int) {
    && 0 <= k < |us| && InChannel(us[k], req.channel)
    && if req.version != "" then
         us[k].version == req.version
         && forall j :: 0 <= j < k && InChannel(us[j], req.channel) ==> us[j].version != req.version
       else
         && us[k].version != ""
         && (forall j :: 0 <= j < |us| && InChannel(us[j], req.channel) ==> !Less(us[k].version, us[j].version))
         && forall j :: 0 <= j < k && InChannel(us[j], req.channel) ==> us[j].version != us[k].version
  }

  // A selection from a list, by places in ascending order.

  predicate Rising(places: seq<nat>, n: nat) {
    && (forall j :: 0 <= j < |places| ==> places[j] < n)
    && forall i, j :: 0 <= i < j < |places| ==> places[i] < places[j]
  }

  lemma {:induction false} RisingSnoc(places: seq<nat>, n: nat)
    requires Rising(places, n)
    ensures Rising(places, n + 1) && Rising(places + [n], n + 1)
  {
  }

  /** A file passes every list of the request that is not empty. */
  predicate Passes(f: File, req: Filter) {
    && (|req.architectures| > 0 ==> f.architecture in req.architectures)
    && (|req.types| > 0 ==> f.kind in req.types)
    && (|req.components| > 0 ==> f.component in req.components)
  }

  /** `names` are the names of the files at these places, which are all that pass. */
  predicate ListedAt(files: seq<File>, names: seq<string>, req: Filter, places: seq<nat>) {
    && Rising(places, |files|) && |names| == |places|
    && (forall j :: 0 <= j < |places| ==> names[j] == files[places[j]].filename)
    && forall i :: 0 <= i < |files| ==> (i in places <==> Passes(files[i], req))
  }

  lemma {:induction false} AssetNamesAt(files: seq<File>, req: Filter) returns (places: seq<nat>)
    ensures ListedAt(files, AssetNames(files, req), req, places)
  {
    places := [];
    if files != [] {
      var n := |files| - 1;
      var front := files[..n];
      var before := AssetNamesAt(front, req);
      assert files == front + [files[n]];
      places := if Passes(files[n], req) then before + [n] else before;
      if Passes(files[n], req) {
        ListedMore(front, AssetNames(front, req), req, before, files[n]);
      } else {
        ListedSame(front, AssetNames(front, req), req, before, files[n]);
        assert AssetNames(front, req) + [] == AssetNames(front, req);
      }
    }
  }

  lemma {:induction false} ListedMore(files: seq<File>, names: seq<string>, req: Filter, places: seq<nat>, f: File)
    requires ListedAt(files, names, req, places) && Passes(f, req)
    ensures ListedAt(files + [f], names + [f.filename], req, places + [|files|])
  {
    RisingSnoc(places, |files|);
    var more, all := places + [|files|], files + [f];
    forall j | 0 <= j < |more| ensures (names + [f.filename])[j] == all[more[j]].filename { if j < |places| { assert more[j] == places[j]; } }
    forall i | 0 <= i < |all| ensures i in more <==> Passes(all[i], req) { if i < |files| { assert all[i] == files[i]; } }
  }

  lemma {:induction false} ListedSame(files: seq<File>, names: seq<string>, req: Filter, places: seq<nat>, f: File)
    requires ListedAt(files, names, req, places) && !Passes(f, req)
    ensures ListedAt(files + [f], names, req, places)
  {
    RisingSnoc(places, |files|);
    var all := files + [f];
    forall i | 0 <= i < |all| ensures i in places <==> Passes(all[i], req) { if i < |files| { assert all[i] == files[i]; } }
  }

  method FilterAssets(index: seq<Update>, req: Filter) returns (r: Assets)
    ensures r.Assets? ==>
      exists k :: Chosen(index, req, k) && r.version == index[k].version && r.names == AssetNames(index[k].files, req)
                      && exists places :: ListedAt(index[k].files, r.names, req, places)
    ensures r.VersionNotFound? <==> forall k :: !Chosen(index, req, k)
  {
    var highest := HighestVersion(index, req);
    if highest < 0 || (index[highest].version != req.version && req.version != "") {
      return VersionNotFound;
    }
    assert Chosen(index, req, highest);
    var files := index[highest].files;
    var names := [];
    for i := 0 to |files|
      invariant names == AssetNames(files[..i], req)
    {
      assert files[..i + 1][..i] == files[..i];
      if req.architectures != [] && files[i].architecture !in req.architectures { continue; }
      if req.types != [] && files[i].kind !in req.types { continue; }
      if req.components != [] && files[i].component !in req.components { continue; }
      names := names + [files[i].filename];
    }
    assert files[..|files|] == files;
    ghost var places := AssetNamesAt(files, req);
    return Assets(index[highest].version, names);
  }

  /** The loop over the index; it stops at the version asked for. */
  method HighestVersion(index: seq<Update>, req: Filter) returns (k: int)
    ensures -1 <= k < |index|
    ensures k >= 0 ==> InChannel(index[k], req.channel)
    ensures k >= 0 && (req.version == "" || index[k].version == req.version) ==> Chosen(index, req, k)
    ensures k < 0 || (req.version != "" && index[k].version != req.version) ==> forall j :: !Chosen(index, req, j)
  {
    k := -1;
    var highestVersion := "";
    var i := 0;
    while i < |index|
      invariant 0 <= i <= |index| && -1 <= k < i
      invariant k == -1 ==> highestVersion == ""
      invariant k >= 0 ==> InChannel(index[k], req.channel) && highestVersion == index[k].version != ""
      invariant forall j :: 0 <= j < i && InChannel(index[j], req.channel) ==>
        !Less(highestVersion, index[j].version) && (req.version == "" || index[j].version != req.version)
      invariant forall j :: 0 <= j < k && InChannel(index[j], req.channel) ==> index[j].version != highestVersion
    {
      var u := index[i];
      if InChannel(u, req.channel) {
        if req.version != "" && u.version == req.version { return i; }
        if Less(highestVersion, u.version) {
          LessIrreflexive(u.version);
          forall j | 0 <= j < i && InChannel(index[j], req.channel) ensures !Less(u.version, index[j].version) {
            if Less(u.version, index[j].version) { LessTransitive(highestVersion, u.version, index[j].version); }
          }
          highestVersion := u.version;
          k := i;
        }
      }
      i := i + 1;
    }
  }

  // ----- the client: the first eligible update

  /** The files of an update for one architecture; those without one are for all. */
  function FilesFor(files: seq<File>, arch: string): (r: seq<File>) {
    if files == [] then []
    else
      var last := files[|files| - 1];
      FilesFor(files[..|files| - 1], arch) + (if last.architecture == "" || last.architecture == arch then [last] else [])
  }

  predicate Eligible(u: Update, channel: string, running: string, arch: string) {
    && (channel == "" || InChannel(u, channel) || u.version == running)
    && FilesFor(u.files, arch) != []
  }

  /** The position of the first eligible update, |us| if there is none. */
  function FirstEligible(us: seq<Update>, channel: string, running: string, arch: string): (k: nat)
    ensures k <= |us|
    ensures k < |us| ==> Eligible(us[k], channel, running, arch)
    ensures forall j :: 0 <= j < k ==> !Eligible(us[j], channel, running, arch)
  {
    if us == [] || Eligible(us[0], channel, running, arch) then 0
    else 1 + FirstEligible(us[1..], channel, running, arch)
  }

  function Selected(us: seq<Update>, channel: string, running: string, arch: string): (r: Option<Update>) {
    var k := FirstEligible(us, channel, running, arch);
    if k < |us| then Some(us[k].(files := FilesFor(us[k].files, arch))) else None
  }

  // ----- what a client must be served, said of the files themselves

  predicate HasFileFor(u: Update, arch: string) {
    exists i :: 0 <= i < |u.files| && (u.files[i].architecture == "" || u.files[i].architecture == arch)
  }

  /** An update of the channel (any, if none is set) or the running release, with a file to use. */
  predicate Suits(u: Update, channel: string, running: string, arch: string) {
    (channel == "" || channel in u.channels || u.version == running) && HasFileFor(u, arch)
  }

  /** `kept` are the files at these places, which are all that are for the architecture or for all. */
  predicate KeptAt(files: seq<File>, kept: seq<File>, arch: string, places: seq<nat>) {
    && Rising(places, |files|) && |kept| == |places|
    && (forall j :: 0 <= j < |places| ==> kept[j] == files[places[j]])
    && forall i :: 0 <= i < |files| ==> (i in places <==> files[i].architecture == "" || files[i].architecture == arch)
  }

  lemma {:induction false} FilesForAt(files: seq<File>, arch: string) returns (places: seq<nat>)
    ensures KeptAt(files, FilesFor(files, arch), arch, places)
  {
    places := [];
    if files != [] {
      var n := |files| - 1;
      var front := files[..n];
      var before := FilesForAt(front, arch);
      assert files == front + [files[n]];
      if files[n].architecture == "" || files[n].architecture == arch {
        places := before + [n];
        KeptMore(front, FilesFor(front, arch), arch, before, files[n]);
      } else {
        places := before;
        KeptSame(front, FilesFor(front, arch), arch, before, files[n]);
        assert FilesFor(front, arch) + [] == FilesFor(front, arch);
      }
    }
  }

  lemma {:induction false} KeptMore(files: seq<File>, kept: seq<File>, arch: string, places: seq<nat>, f: File)
    requires KeptAt(files, kept, arch, places) && (f.architecture == "" || f.architecture == arch)
    ensures KeptAt(files + [f], kept + [f], arch, places + [|files|])
  {
    RisingSnoc(places, |files|);
    var more, all := places + [|files|], files + [f];
    forall j | 0 <= j < |more| ensures (kept + [f])[j] == all[more[j]] { if j < |places| { assert more[j] == places[j]; } }
    forall i | 0 <= i < |all| ensures i in more <==> all[i].architecture == "" || all[i].architecture == arch {
      if i < |files| { assert all[i] == files[i]; }
    }
  }

  lemma {:induction false} KeptSame(files: seq<File>, kept: seq<File>, arch: string, places: seq<nat>, f: File)
    requires KeptAt(files, kept, arch, places) && f.architecture != "" && f.architecture != arch
    ensures KeptAt(files + [f], kept, arch, places)
  {
    RisingSnoc(places, |files|);
    var all := files + [f];
    forall i | 0 <= i < |all| ensures i in places <==> all[i].architecture == "" || all[i].architecture == arch {
      if i < |files| { assert all[i] == files[i]; }
    }
  }

  /** A file is kept exactly when it is for the architecture or for all. */
  lemma {:induction false} FilesForMember(files: seq<File>, arch: string, f: File)
    ensures f in FilesFor(files, arch) <==> f in files && (f.architecture == "" || f.architecture == arch)
  {
    if files != [] {
      var n := |files| - 1;
      FilesForMember(files[..n], arch, f);
      assert files == files[..n] + [files[n]];
    }
  }

  lemma {:induction false} SuitsIsEligible(u: Update, channel: string, running: string, arch: string)
    ensures Suits(u, channel, running, arch) <==> Eligible(u, channel, running, arch)
  {
    var places := FilesForAt(u.files, arch);
    if HasFileFor(u, arch) {
      var i :| 0 <= i < |u.files| && (u.files[i].architecture == "" || u.files[i].architecture == arch);
      assert i in places;
    }
    if FilesFor(u.files, arch) != [] { assert places[0] in places; }
  }

  /** The first update that suits, with exactly its files for the architecture. */
  ghost predicate Serves(us: seq<Update>, channel: string, running: string, arch: string, r: Option<Update>) {
    if r.None? then forall j :: 0 <= j < |us| ==> !Suits(us[j], channel, running, arch)
    else
      exists k :: 0 <= k < |us| && Suits(us[k], channel, running, arch)
        && (forall j :: 0 <= j < k ==> !Suits(us[j], channel, running, arch))
        && r.value.version == us[k].version && r.value.channels == us[k].channels && r.value.severity == us[k].severity
        && exists places :: KeptAt(us[k].files, r.value.files, arch, places)
  }

  lemma {:induction false} SelectedServes(us: seq<Update>, channel: string, running: string, arch: string)
    ensures Serves(us, channel, running, arch, Selected(us, channel, running, arch))
  {
    var k := FirstEligible(us, channel, running, arch);
    forall j | 0 <= j < |us| ensures Suits(us[j], channel, running, arch) <==> Eligible(us[j], channel, running, arch) {
      SuitsIsEligible(us[j], channel, running, arch);
    }
    if k < |us| { var places := FilesForAt(us[k].files, arch); }
  }

  /** The images provider, which asks the server at most once an hour after a success. */
  class ImagesProvider {
    var latestUpdate: Option<Update>
    var lastCheck: Option<int>

    constructor ()
      ensures latestUpdate == None && lastCheck == None
    {
      latestUpdate, lastCheck := None, None;
    }

    /** `fetched` is the index the server returned, None if it could not be had. */
    method CheckRelease(now: int, fetched: Option<seq<Update>>, channel: string, running: string, arch: string)
      returns (r: Option<Update>)
      modifies this
      ensures old(latestUpdate.Some? && lastCheck.Some? && lastCheck.value + 3600 > now) ==> r == old(latestUpdate)
      ensures !old(latestUpdate.Some? && lastCheck.Some? && lastCheck.value + 3600 > now) ==>
        && r == (if fetched.Some? then Selected(fetched.value, channel, running, arch) else None)
        && (fetched.Some? ==> Serves(fetched.value, channel, running, arch, r))
        && (r.Some? ==> latestUpdate == r && lastCheck == Some(now))
      ensures old(latestUpdate.Some? && lastCheck.Some? && lastCheck.value + 3600 > now) || r.None? ==>
        latestUpdate == old(latestUpdate) && lastCheck == old(lastCheck)
    {
      if latestUpdate.Some? && lastCheck.Some? && lastCheck.value + 3600 > now { return latestUpdate; }
      if fetched.None? { return None; }
      r := FirstSuitable(fetched.value, channel, running, arch);
      SelectedServes(fetched.value, channel, running, arch);
      if r.Some? {
        lastCheck := Some(now);
        latestUpdate := r;
      }
    }
  }

  /** The loop over the index: skip what does not suit, strip the files of the first that does. */
  method FirstSuitable(us: seq<Update>, channel: string, running: string, arch: string) returns (r: Option<Update>)
    ensures r == Selected(us, channel, running, arch)
  {
    var i := 0;
    while i < |us|
      invariant 0 <= i <= |us|
      invariant forall j :: 0 <= j < i ==> !Eligible(us[j], channel, running, arch)
    {
      var u := us[i];
      if channel != "" && channel !in u.channels && u.version != running { i := i + 1; continue; }
      if |u.files| == 0 { i := i + 1; continue; }
      var files := StripFiles(u.files, arch);
      if |files| == 0 { i := i + 1; continue; }
      return Some(u.(files := files));
    }
    return None;
  }

  method StripFiles(files: seq<File>, arch: string) returns (r: seq<File>)
    ensures r == FilesFor(files, arch)
  {
    r := [];
    for i := 0 to |files|
      invariant r == FilesFor(files[..i], arch)
    {
      assert files[..i + 1][..i] == files[..i];
      if files[i].architecture != "" && files[i].architecture != arch { continue; }
      r := r + [files[i]];
    }
    assert files[..|files|] == files;
  }

  // ----- agreement

  /** On a descending index the first of the channel is the newest, and there is no other newest. */
  lemma {:induction false} FirstIsNewest(us: seq<Update>, channel: string, u: Update)
    requires Descending(us)
    ensures IsNewest(us, channel, u) <==> FirstOf(us, channel) < |us| && us[FirstOf(us, channel)] == u
  {
    var k := FirstOf(us, channel);
    if k < |us| {
      assert us[k] in Members(us);
      forall w | w in Members(us) && InChannel(w, channel) && w != us[k] ensures Less(w.version, us[k].version) {
        var j :| 0 <= j < |us| && us[j] == w;
      }
      if IsNewest(us, channel, u) && u != us[k] {
        LessTransitive(u.version, us[k].version, u.version);
        LessIrreflexive(u.version);
      }
    }
  }

  /** The customizer's choice, when no version is asked for, is the newest too. */
  lemma {:induction false} HighestIsNewest(us: seq<Update>, req: Filter, k: int)
    requires Descending(us) && AllReleases(us) && req.version == ""
    ensures Chosen(us, req, k) <==> 0 <= k < |us| && IsNewest(us, req.channel, us[k])
  {
    if 0 <= k < |us| && InChannel(us[k], req.channel) {
      assert us[k] in Members(us);
      LessIrreflexive(us[k].version);
      if Chosen(us, req, k) {
        forall w | w in Members(us) && InChannel(w, req.channel) && w != us[k] ensures Less(w.version, us[k].version) {
          var j :| 0 <= j < |us| && us[j] == w;
        }
      }
      if IsNewest(us, req.channel, us[k]) {
        forall j | 0 <= j < |us| && InChannel(us[j], req.channel) ensures !Less(us[k].version, us[j].version) {
          assert us[j] in Members(us);
          if us[j] != us[k] && Less(us[k].version, us[j].version) {
            LessTransitive(us[k].version, us[j].version, us[k].version);
          }
        }
      }
    }
  }

  /** The running release is listed outside the channel, is newer than u, and has files for arch. */
  predicate RunningIsAhead(us: seq<Update>, channel: string, running: string, arch: string, u: Update) {
    exists j :: 0 <= j < |us| && us[j].version == running && !InChannel(us[j], channel)
      && Less(u.version, running) && FilesFor(us[j].files, arch) != []
  }

  /** The client takes the newest of its channel exactly when that has files for its architecture
      and the running release is not a newer one that left the channel. */
  lemma {:induction false} ClientTakesNewest(us: seq<Update>, channel: string, running: string, arch: string, u: Update)
    requires Descending(us) && channel != "" && IsNewest(us, channel, u)
    ensures Selected(us, channel, running, arch) == Some(u.(files := FilesFor(u.files, arch)))
      <==> FilesFor(u.files, arch) != [] && !RunningIsAhead(us, channel, running, arch, u)
  {
    FirstIsNewest(us, channel, u);
    var k := FirstOf(us, channel);
    var e := FirstEligible(us, channel, running, arch);
    LessIrreflexive(u.version);
    if FilesFor(u.files, arch) != [] {
      assert Eligible(us[k], channel, running, arch);
      assert e <= k;
      if e < k {
        assert Less(us[k].version, us[e].version);
        assert RunningIsAhead(us, channel, running, arch, u);
      }
      if RunningIsAhead(us, channel, running, arch, u) {
        var j :| 0 <= j < |us| && us[j].version == running && !InChannel(us[j], channel)
              && Less(u.version, running) && FilesFor(us[j].files, arch) != [];
        NewerComesFirst(us, j, k);
        assert Eligible(us[j], channel, running, arch);
      }
    }
  }

  lemma {:induction false} NewerComesFirst(us: seq<Update>, j: nat, k: nat)
    requires Descending(us) && j < |us| && k < |us| && Less(us[k].version, us[j].version)
    ensures j < k
  {
    LessIrreflexive(us[k].version);
    if k < j { LessTransitive(us[k].version, us[j].version, us[k].version); }
  }

  lemma {:induction false} SameVersionSamePlace(us: seq<Update>, j: nat, k: nat)
    requires Descending(us) && j < |us| && k < |us| && us[j].version == us[k].version
    ensures j == k
  {
    LessIrreflexive(us[k].version);
  }

  /** All three name the same update. */
  lemma {:induction false} SelectorsAgree(us: seq<Update>, channel: string, running: string, arch: string, k: nat)
    requires Descending(us) && AllReleases(us) && channel != "" && k < |us|
    ensures FirstOf(us, channel) == k <==> IsNewest(us, channel, us[k])
    ensures Chosen(us, Filter(channel, "", [], [], []), k) <==> FirstOf(us, channel) == k
    ensures FirstOf(us, channel) == k && FilesFor(us[k].files, arch) != [] && !RunningIsAhead(us, channel, running, arch, us[k]) ==>
      FirstEligible(us, channel, running, arch) == k
  {
    FirstIsNewest(us, channel, us[k]);
    HighestIsNewest(us, Filter(channel, "", [], [], []), k);
    var f := FirstOf(us, channel);
    if f < |us| && us[f] == us[k] { SameVersionSamePlace(us, f, k); }
    if f == k && FilesFor(us[k].files, arch) != [] && !RunningIsAhead(us, channel, running, arch, us[k]) {
      ClientTakesNewest(us, channel, running, arch, us[k]);
      SameVersionSamePlace(us, FirstEligible(us, channel, running, arch), k);
    }
  }

  /** While the running release is listed with files for the machine, what the client selects is
      that release or a strictly newer one of its channel, by the client's own comparison. */
  lemma {:induction false} NoDowngrade(us: seq<Update>, channel: string, running: string, arch: string, r: nat)
    requires Descending(us) && AllReleases(us)
    requires r < |us| && us[r].version == running && FilesFor(us[r].files, arch) != []
    ensures var s := Selected(us, channel, running, arch);
      && s.Some?
      && (s.value.version != running ==>
            && DatetimeComparison(s.value.version, running) && !DatetimeComparison(running, s.value.version)
            && (channel == "" || channel in s.value.channels))
  {
    assert Eligible(us[r], channel, running, arch);
    var e := FirstEligible(us, channel, running, arch);
    assert e <= r;
    if e < r {
      assert Less(us[r].version, us[e].version);
      ComparisonsAgree(us[e].version, running);
      ComparisonsAgree(running, us[e].version);
      LessAsymmetric(running, us[e].version);
    }
  }
}
