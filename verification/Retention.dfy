/**
 Pruning the image server (cmd/image-publisher/main_prune.go:65-89): a per-channel count is
 kept while walking the index from the newest update on, and an update none of whose channels
 still wants one is deleted.
 */
module Retention {
  import opened Versions
  import opened Releases
  import opened ReleaseIndex
  import opened ReleaseSelection

  /** The updates of one channel, in the order of the index. */
  function OfChannel(us: seq<Update>, channel: string): (r: seq<Update>) {
    if us == [] then []
    else
      var n := |us| - 1;
      OfChannel(us[..n], channel) + (if InChannel(us[n], channel) then [us[n]] else [])
  }

  /** For some channel of u, fewer than `retention` of the newer updates carry that channel. */
  predicate Wanted(newer: seq<Update>, u: Update, retention: int) {
    exists k :: 0 <= k < |u.channels| && |OfChannel(newer, u.channels[k])| < retention
  }

  predicate Kept(us: seq<Update>, retention: int, i: nat)
    requires i < |us|
  {
    Wanted(us[..i], us[i], retention)
  }

  /** The index without the updates that are not kept. */
  function Retain(us: seq<Update>, retention: int): (r: seq<Update>) {
    if us == [] then []
    else
      var n := |us| - 1;
      Retain(us[..n], retention) + (if Wanted(us[..n], us[n], retention) then [us[n]] else [])
  }

  lemma {:induction false} ChannelSnoc(us: seq<Update>, u: Update, channel: string)
    ensures OfChannel(us + [u], channel) == if InChannel(u, channel) then OfChannel(us, channel) + [u] else OfChannel(us, channel)
  {
  }

  lemma {:induction false} RetainSnoc(us: seq<Update>, u: Update, retention: int)
    ensures Retain(us + [u], retention) == if Wanted(us, u, retention) then Retain(us, retention) + [u] else Retain(us, retention)
  {
  }

  predicate Unrepeated(names: seq<string>) {
    forall i, j :: 0 <= i < j < |names| ==> names[i] != names[j]
  }

  predicate DistinctChannels(u: Update) {
    Unrepeated(u.channels)
  }

  // ----- the counting loops

  /** The count of a channel goes up to the retention and no further. */
  function Capped(n: nat, retention: int): (c: int) {
    if retention <= 0 then 0 else if n < retention then n else retention
  }

  function CountOf(counts: map<string, int>, channel: string): (n: int) {
    if channel in counts then counts[channel] else 0
  }

  ghost predicate Counted(counts: map<string, int>, us: seq<Update>, retention: int) {
    forall c :: CountOf(counts, c) == Capped(|OfChannel(us, c)|, retention)
  }

  /** The counts while the first k channels of u have been counted on top of `newer`. */
  ghost predicate CountedPart(counts: map<string, int>, newer: seq<Update>, part: seq<string>, retention: int) {
    forall c :: CountOf(counts, c) == CappedWith(newer, part, retention, c)
  }

  function CappedWith(newer: seq<Update>, part: seq<string>, retention: int, c: string): (n: int) {
    Capped(|OfChannel(newer, c)| + (if c in part then 1 else 0), retention)
  }

  lemma {:induction false} CountedNext(counts: map<string, int>, newer: seq<Update>, u: Update, retention: int)
    requires CountedPart(counts, newer, u.channels, retention)
    ensures Counted(counts, newer + [u], retention)
  {
  }

  lemma {:induction false} CountedOneMore(counts: map<string, int>, newer: seq<Update>, part: seq<string>, channel: string, retention: int)
    requires CountedPart(counts, newer, part, retention) && channel !in part
    ensures CountOf(counts, channel) < retention <==> |OfChannel(newer, channel)| < retention
    ensures CountOf(counts, channel) < retention ==>
      CountedPart(counts[channel := CountOf(counts, channel) + 1], newer, part + [channel], retention)
    ensures CountOf(counts, channel) >= retention ==> CountedPart(counts, newer, part + [channel], retention)
  {
    assert CountOf(counts, channel) == CappedWith(newer, part, retention, channel);
    var more := counts[channel := CountOf(counts, channel) + 1];
    forall c | c != channel
      ensures CountOf(counts, c) == CountOf(more, c) == CappedWith(newer, part + [channel], retention, c)
    {
      assert CountOf(counts, c) == CappedWith(newer, part, retention, c);
    }
  }

  /** One update's channels, each counted once. */
  method CountChannels(counts: map<string, int>, newer: seq<Update>, u: Update, retention: int)
    returns (counts': map<string, int>, used: bool)
    requires DistinctChannels(u) && Counted(counts, newer, retention)
    ensures used <==> Wanted(newer, u, retention)
    ensures Counted(counts', newer + [u], retention)
  {
    counts' := counts;
    used := false;
    for k := 0 to |u.channels|
      invariant CountedPart(counts', newer, u.channels[..k], retention)
      invariant used <==> exists j :: 0 <= j < k && |OfChannel(newer, u.channels[j])| < retention
    {
      var channel := u.channels[k];
      assert channel !in u.channels[..k];
      assert u.channels[..k + 1] == u.channels[..k] + [channel];
      CountedOneMore(counts', newer, u.channels[..k], channel, retention);
      if CountOf(counts', channel) < retention {
        counts' := counts'[channel := CountOf(counts', channel) + 1];
        used := true;
      }
    }
    assert u.channels[..|u.channels|] == u.channels;
    CountedNext(counts', newer, u, retention);
  }

  /** The versions to delete. */
  method UnusedVersions(index: seq<Update>, retention: int) returns (unused: set<string>)
    requires forall i :: 0 <= i < |index| ==> DistinctChannels(index[i])
    ensures unused == set i | 0 <= i < |index| && !Kept(index, retention, i) :: index[i].version
  {
    var imagesPerChannel: map<string, int> := map[];
    unused := {};
    for i := 0 to |index|
      invariant Counted(imagesPerChannel, index[..i], retention)
      invariant unused == set j | 0 <= j < i && !Kept(index, retention, j) :: index[j].version
    {
      var used;
      imagesPerChannel, used := CountChannels(imagesPerChannel, index[..i], index[i], retention);
      assert index[..i] + [index[i]] == index[..i + 1];
      if !used { unused := unused + {index[i].version}; }
    }
  }

  // ----- what is retained

  lemma {:induction false} KeptByPrefix(us: seq<Update>, n: nat, retention: int, i: nat)
    requires i < n <= |us|
    ensures Kept(us[..n], retention, i) <==> Kept(us, retention, i)
  {
    assert us[..n][..i] == us[..i];
  }

  function KeptMembers(us: seq<Update>, retention: int): (s: set<Update>) {
    set i | 0 <= i < |us| && Kept(us, retention, i) :: us[i]
  }

  lemma {:induction false} KeptSnoc(us: seq<Update>, u: Update, retention: int)
    ensures KeptMembers(us + [u], retention) == KeptMembers(us, retention) + (if Wanted(us, u, retention) then {u} else {})
  {
    var r := us + [u];
    assert r[..|us|] == us && r[|us|] == u;
    forall i | 0 <= i < |us| ensures r[i] == us[i] && (Kept(r, retention, i) <==> Kept(us, retention, i)) {
      KeptByPrefix(r, |us|, retention, i);
    }
    assert Kept(r, retention, |us|) <==> Wanted(us, u, retention);
    forall x | x in KeptMembers(us, retention) ensures x in KeptMembers(r, retention) {
      var i :| 0 <= i < |us| && Kept(us, retention, i) && us[i] == x;
      assert r[i] == x && Kept(r, retention, i);
    }
  }

  /** Retain keeps exactly the kept updates. */
  lemma {:induction false} RetainedMembers(us: seq<Update>, retention: int)
    ensures Members(Retain(us, retention)) == KeptMembers(us, retention)
  {
    if us != [] {
      var n := |us| - 1;
      var newer, u := us[..n], us[n];
      assert us == newer + [u];
      RetainedMembers(newer, retention);
      KeptSnoc(newer, u, retention);
      RetainSnoc(newer, u, retention);
      if Wanted(newer, u, retention) { MembersSnoc(Retain(newer, retention), u); }
    }
  }

  lemma {:induction false} RetainedDescends(us: seq<Update>, retention: int)
    requires Descending(us)
    ensures Descending(Retain(us, retention))
    ensures forall i :: 0 <= i < |Retain(us, retention)| ==> Retain(us, retention)[i] in Members(us)
  {
    if us != [] {
      var n := |us| - 1;
      RetainedDescends(us[..n], retention);
      var r := Retain(us[..n], retention);
      forall i | 0 <= i < |r| ensures r[i] in Members(us) && Less(us[n].version, r[i].version) {
        var j :| 0 <= j < n && us[..n][j] == r[i];
        assert us[j] == r[i];
      }
      assert us[n] in Members(us);
    }
  }

  ghost predicate SameNewest(all: seq<Update>, kept: seq<Update>, retention: nat) {
    var k := if |all| < retention then |all| else retention;
    k <= |kept| <= |all| && kept[..k] == all[..k]
  }

  /** Every channel keeps its newest `retention` updates: the two channel listings agree on
      that many first entries, and the retained one is no longer. */
  lemma {:induction false} ChannelKeepsNewest(us: seq<Update>, retention: nat, channel: string)
    ensures SameNewest(OfChannel(us, channel), OfChannel(Retain(us, retention), channel), retention)
  {
    if us != [] {
      var n := |us| - 1;
      var newer, u := us[..n], us[n];
      assert us == newer + [u];
      ChannelKeepsNewest(newer, retention, channel);
      KeepsNewestSnoc(newer, u, retention, channel);
    }
  }

  lemma {:induction false} KeepsNewestSnoc(newer: seq<Update>, u: Update, retention: nat, channel: string)
    requires SameNewest(OfChannel(newer, channel), OfChannel(Retain(newer, retention), channel), retention)
    ensures SameNewest(OfChannel(newer + [u], channel), OfChannel(Retain(newer + [u], retention), channel), retention)
  {
    ChannelSnoc(newer, u, channel);
    RetainSnoc(newer, u, retention);
    var all, kept := OfChannel(newer, channel), OfChannel(Retain(newer, retention), channel);
    ChannelSnoc(Retain(newer, retention), u, channel);
    if InChannel(u, channel) && |all| < retention {
      var k :| 0 <= k < |u.channels| && u.channels[k] == channel;
      assert Wanted(newer, u, retention);
    }
    KeepsNewestStep(all, kept, OfChannel(newer + [u], channel), OfChannel(Retain(newer + [u], retention), channel), u, retention);
  }

  /** One more update on each side, or on the full side only once that has enough. */
  lemma {:induction false} KeepsNewestStep(all: seq<Update>, kept: seq<Update>, all': seq<Update>, kept': seq<Update>, u: Update, retention: nat)
    requires SameNewest(all, kept, retention)
    requires all' == all || all' == all + [u]
    requires kept' == kept || kept' == kept + [u]
    requires all' == all ==> kept' == kept
    requires all' != all && |all| < retention ==> kept' == kept + [u]
    ensures SameNewest(all', kept', retention)
  {
  }

  lemma {:induction false} CountShrinks(us: seq<Update>, retention: int, channel: string)
    ensures |OfChannel(Retain(us, retention), channel)| <= |OfChannel(us, channel)|
  {
    if us != [] {
      var n := |us| - 1;
      var newer, u := us[..n], us[n];
      assert us == newer + [u];
      CountShrinks(newer, retention, channel);
      ChannelSnoc(newer, u, channel);
      RetainSnoc(newer, u, retention);
      ChannelSnoc(Retain(newer, retention), u, channel);
    }
  }

  /** Pruning twice is pruning once. */
  lemma {:induction false} RetainIsIdempotent(us: seq<Update>, retention: int)
    ensures Retain(Retain(us, retention), retention) == Retain(us, retention)
  {
    if us != [] {
      var n := |us| - 1;
      var newer, u := us[..n], us[n];
      assert us == newer + [u];
      RetainIsIdempotent(newer, retention);
      RetainSnoc(newer, u, retention);
      var r := Retain(newer, retention);
      if Wanted(newer, u, retention) {
        var k :| 0 <= k < |u.channels| && |OfChannel(newer, u.channels[k])| < retention;
        CountShrinks(newer, retention, u.channels[k]);
        assert Wanted(r, u, retention);
        RetainSnoc(r, u, retention);
      }
    }
  }

  lemma {:induction false} FirstHeadsChannel(us: seq<Update>, channel: string)
    ensures FirstOf(us, channel) < |us| <==> OfChannel(us, channel) != []
    ensures FirstOf(us, channel) < |us| ==> us[FirstOf(us, channel)] == OfChannel(us, channel)[0]
  {
    if us != [] {
      var n := |us| - 1;
      FirstHeadsChannel(us[..n], channel);
      var k, k' := FirstOf(us, channel), FirstOf(us[..n], channel);
      if k' < n {
        assert us[k'] == us[..n][k'];
        assert !(k < k') && !(k' < k);
      } else {
        assert forall j :: 0 <= j < n ==> us[j] == us[..n][j];
        assert k >= n;
      }
    }
  }

  /** With a retention of at least one, the newest update of every channel stays the same. */
  lemma {:induction false} PruneKeepsNewest(us: seq<Update>, retention: nat, channel: string, u: Update)
    requires Descending(us) && retention >= 1
    ensures IsNewest(Retain(us, retention), channel, u) <==> IsNewest(us, channel, u)
  {
    var kept := Retain(us, retention);
    RetainedDescends(us, retention);
    FirstIsNewest(us, channel, u);
    FirstIsNewest(kept, channel, u);
    FirstHeadsChannel(us, channel);
    FirstHeadsChannel(kept, channel);
    ChannelKeepsNewest(us, retention, channel);
    var all, rest := OfChannel(us, channel), OfChannel(kept, channel);
    if all != [] { assert rest[..1] == all[..1] by { Prefixes(rest, all, if |all| < retention then |all| else retention); } }
    assert all != [] ==> rest[..1][0] == rest[0] && all[..1][0] == all[0];
  }

  lemma {:induction false} Prefixes(a: seq<Update>, b: seq<Update>, k: nat)
    requires 1 <= k <= |a| && k <= |b| && a[..k] == b[..k]
    ensures a[..1] == b[..1]
  {
  }

  /** A client's selection survives pruning exactly when there was none, or the selected update is
      kept; for every retention, channel and client. */
  lemma {:induction false} SelectionSurvives(us: seq<Update>, retention: int, channel: string, running: string, arch: string)
    requires Descending(us)
    ensures var e := FirstEligible(us, channel, running, arch);
      Selected(Retain(us, retention), channel, running, arch) == Selected(us, channel, running, arch)
      <==> e == |us| || Kept(us, retention, e)
  {
    var e := FirstEligible(us, channel, running, arch);
    RetainedDescends(us, retention);
    if e < |us| && Kept(us, retention, e) {
      KeptIsSelected(us, retention, channel, running, arch);
    } else {
      OtherIsSelected(us, retention, channel, running, arch);
    }
  }

  /** If it is not kept, whatever is selected is of another version. */
  lemma {:induction false} OtherIsSelected(us: seq<Update>, retention: int, channel: string, running: string, arch: string)
    requires Descending(us)
    ensures var e := FirstEligible(us, channel, running, arch);
      var kept := Retain(us, retention); var f := FirstEligible(kept, channel, running, arch);
      (e < |us| ==> Kept(us, retention, e)) || (f < |kept| ==> kept[f].version != us[e].version)
    ensures FirstEligible(us, channel, running, arch) == |us| ==>
      FirstEligible(Retain(us, retention), channel, running, arch) == |Retain(us, retention)|
  {
    var kept := Retain(us, retention);
    var e, f := FirstEligible(us, channel, running, arch), FirstEligible(kept, channel, running, arch);
    if f < |kept| {
      var j := PlaceBefore(us, retention, f);
      assert e <= j;
      if e < j { LessIrreflexive(us[e].version); }
    }
  }

  /** What was selected and is kept comes first again. */
  lemma {:induction false} KeptIsSelected(us: seq<Update>, retention: int, channel: string, running: string, arch: string)
    requires Descending(us) && Descending(Retain(us, retention))
    requires var e := FirstEligible(us, channel, running, arch); e < |us| && Kept(us, retention, e)
    ensures var kept := Retain(us, retention); var f := FirstEligible(kept, channel, running, arch);
      f < |kept| && kept[f] == us[FirstEligible(us, channel, running, arch)]
  {
    var kept := Retain(us, retention);
    var e, f := FirstEligible(us, channel, running, arch), FirstEligible(kept, channel, running, arch);
    RetainedMembers(us, retention);
    assert us[e] in Members(kept);
    var m :| 0 <= m < |kept| && kept[m] == us[e];
    assert f <= m;
    var j := PlaceBefore(us, retention, f);
    assert e <= j;
    if e < j { NewerComesFirst(kept, m, f); }
  }

  lemma {:induction false} PlaceBefore(us: seq<Update>, retention: int, f: nat) returns (j: nat)
    requires f < |Retain(us, retention)|
    ensures j < |us| && Kept(us, retention, j) && us[j] == Retain(us, retention)[f]
  {
    RetainedMembers(us, retention);
    assert Retain(us, retention)[f] in Members(Retain(us, retention));
    j :| 0 <= j < |us| && Kept(us, retention, j) && us[j] == Retain(us, retention)[f];
  }

  /** With a retention of at least one, a client that is served the newest update of its channel
      sees no difference. */
  lemma {:induction false} PruneKeepsSelection(us: seq<Update>, retention: nat, channel: string, running: string, arch: string, u: Update)
    requires Descending(us) && retention >= 1 && channel != "" && IsNewest(us, channel, u)
    requires FilesFor(u.files, arch) != [] && !RunningIsAhead(us, channel, running, arch, u)
    ensures Selected(Retain(us, retention), channel, running, arch) == Selected(us, channel, running, arch)
  {
    FirstIsNewest(us, channel, u);
    ClientTakesNewest(us, channel, running, arch, u);
    var k, e := FirstOf(us, channel), FirstEligible(us, channel, running, arch);
    SameVersionSamePlace(us, e, k);
    var c :| 0 <= c < |us[k].channels| && us[k].channels[c] == channel;
    NoneBefore(us[..k], channel);
    assert Wanted(us[..k], us[k], retention);
    SelectionSurvives(us, retention, channel, running, arch);
  }

  lemma {:induction false} NoneBefore(us: seq<Update>, channel: string)
    requires forall j :: 0 <= j < |us| ==> !InChannel(us[j], channel)
    ensures OfChannel(us, channel) == []
  {
    if us != [] { NoneBefore(us[..|us| - 1], channel); }
  }

  // ----- retention, by counting

  /** The places among the first `n` updates that carry the channel. */
  function Carriers(us: seq<Update>, n: nat, channel: string): (s: set<nat>)
    requires n <= |us|
  {
    set j: nat | j < n && channel in us[j].channels
  }

  lemma {:induction false} CarriersNext(us: seq<Update>, n: nat, channel: string)
    requires n < |us|
    ensures |Carriers(us, n + 1, channel)| == |Carriers(us, n, channel)| + if channel in us[n].channels then 1 else 0
  {
    var before := Carriers(us, n, channel);
    assert n !in before;
    assert Carriers(us, n + 1, channel) == if channel in us[n].channels then before + {n} else before;
  }

  lemma {:induction false} ChannelCount(us: seq<Update>, n: nat, channel: string)
    requires n <= |us|
    ensures |OfChannel(us[..n], channel)| == |Carriers(us, n, channel)|
  {
    if n == 0 {
      assert us[..0] == [] && Carriers(us, 0, channel) == {};
    } else {
      ChannelCount(us, n - 1, channel);
      CarriersNext(us, n - 1, channel);
      assert us[..n] == us[..n - 1] + [us[n - 1]];
      ChannelSnoc(us[..n - 1], us[n - 1], channel);
    }
  }

  /** An update is kept exactly when for some channel of it fewer than the retention updates before it
      in the index carry that channel. */
  lemma {:induction false} KeptByCount(us: seq<Update>, retention: int, i: nat)
    requires i < |us|
    ensures Kept(us, retention, i) <==> exists c :: c in us[i].channels && |Carriers(us, i, c)| < retention
  {
    forall c ensures |OfChannel(us[..i], c)| == |Carriers(us, i, c)| { ChannelCount(us, i, c); }
    if c :| c in us[i].channels && |Carriers(us, i, c)| < retention {
      var k :| 0 <= k < |us[i].channels| && us[i].channels[k] == c;
    }
  }
}
