/** The decision made by `check_for_updates` once its I/O is taken out: the
    HTTP reply, the answer of the confirmation dialog and the existence of
    `updater.exe` are inputs; launching the updater and exiting is the
    `Handoff` outcome; every exception the function swallows is `Failed`. */
module UpdateGate {
  import opened Options
  import opened Versions

  /** One element of the release's `assets` list. A `name` that is missing
      or is not a string is None (reading or testing it raises). A missing
      `browser_download_url` is None (the lookup raises); a falsy one (null,
      "", 0, false, [] or {}) is written Some(""), since the source treats
      all of them as "no URL". */
  datatype Asset = Asset(name: Option<string>, downloadUrl: Option<string>)

  /** The decoded body of the latest-release reply. A `tag_name` that is
      missing or not a string is None. An `assets` value that is missing or
      cannot be iterated (null, a number) is None; one that iterates over
      nothing (an empty list, object or string) is Some([]); a non-empty
      object or string iterates over strings, each an Asset with no fields. */
  datatype ReleaseInfo = ReleaseInfo(tagName: Option<string>, assets: Option<seq<Asset>>)

  /** What the HTTP GET produced: an exception (timeout, connection error),
      or a status code with the body decoded as a JSON object (None when the
      body is not a JSON object). */
  datatype Reply = NetworkError | Response(status: int, body: Option<ReleaseInfo>)

  /** Terminal result of one update check. */
  datatype Outcome =
    | NotFetched          // non-200 status: nothing happens, nothing further is printed
    | UpToDate            // latest is not strictly newer
    | NoAsset             // newer, but no `.exe` asset with a non-empty URL
    | Declined            // the user said no in the dialog
    | UpdaterMissing      // confirmed, but updater.exe is absent: error dialog, return
    | Handoff(args: seq<string>)  // updater launched with args, then the process exits
    | Failed              // an exception was caught and printed

  const UpdaterExe: string := "updater.exe"
  const TargetExe: string := "GIMI_Pro.exe"
  const InstallerSuffix: string := ".exe"

  // ------------------------------------------------------- tag normalising

  /** `tag.replace('v', '')`: deletes every 'v', wherever it stands. */
  function StripV(s: string): (r: string)
    ensures 'v' !in r
    ensures |r| <= |s|
    ensures forall c :: c != 'v' ==> multiset(r)[c] == multiset(s)[c]
  {
    if s == [] then []
    else
      assert s == [s[0]] + s[1..];
      if s[0] == 'v' then StripV(s[1..]) else [s[0]] + StripV(s[1..])
  }

  /** A string without 'v' is left exactly as it is. */
  lemma {:induction false} StripVNoV(s: string)
    requires 'v' !in s
    ensures StripV(s) == s
  {
    if s != [] {
      assert 'v' !in s[1..];
      StripVNoV(s[1..]);
      assert [s[0]] + s[1..] == s;
    }
  }

  /** Normalising twice is normalising once. */
  lemma StripVIdempotent(s: string)
    ensures StripV(StripV(s)) == StripV(s)
  {
    StripVNoV(StripV(s));
  }

  /** StripV keeps the other characters in their order: it distributes over
      concatenation, so a 'v' in the middle of a tag is deleted too. */
  lemma {:induction false} StripVAppend(s: string, t: string)
    ensures StripV(s + t) == StripV(s) + StripV(t)
  {
    if s == [] {
      assert s + t == t;
    } else {
      assert (s + t)[1..] == s[1..] + t;
      StripVAppend(s[1..], t);
    }
  }

  /** Not only a leading 'v' goes: "v1.0-dev" loses both. */
  lemma StripVEverywhere()
    ensures StripV("v1.2") == "1.2"
    ensures StripV("v1.0-dev") == "1.0-de"
  {
    assert "v1.2"[1..] == "1.2";
    StripVNoV("1.2");
    assert "v1.0-dev" == "v" + "1.0-de" + "v";
    StripVAppend("v" + "1.0-de", "v");
    StripVAppend("v", "1.0-de");
    StripVNoV("1.0-de");
  }

  // ------------------------------------------------------- asset selection

  predicate EndsWith(s: string, suffix: string) {
    |s| >= |suffix| && s[|s| - |suffix|..] == suffix
  }

  /** Result of the `for asset in assets ... break` loop. */
  datatype Selection = Selected(url: string) | NoneSelected | Malformed

  /** Scans the assets in server order and stops at the first one whose name
      ends in `.exe`, taking its URL. A missing name before (or at) that point,
      or a missing URL on that asset, raises in the source: Malformed. */
  function SelectAsset(assets: seq<Asset>): (r: Selection)
    ensures r.Selected? ==> exists i: nat :: FirstInstaller(assets, i) && assets[i].downloadUrl == Some(r.url)
    ensures r == NoneSelected ==> forall j :: 0 <= j < |assets| ==>
      assets[j].name.Some? && !EndsWith(assets[j].name.value, InstallerSuffix)
  {
    if assets == [] then NoneSelected
    else if assets[0].name.None? then Malformed
    else if EndsWith(assets[0].name.value, InstallerSuffix) then
      (if assets[0].downloadUrl.None? then Malformed else Selected(assets[0].downloadUrl.value))
    else SelectAsset(assets[1..])
  }

  /** Asset i is the one the loop stops at. */
  ghost predicate FirstInstaller(assets: seq<Asset>, i: nat) {
    i < |assets| &&
    (forall j :: 0 <= j <= i ==> assets[j].name.Some?) &&
    (forall j :: 0 <= j < i ==> !EndsWith(assets[j].name.value, InstallerSuffix)) &&
    EndsWith(assets[i].name.value, InstallerSuffix)
  }

  /** A URL is selected exactly when some asset is the first installer and
      carries a URL; that URL is the one selected. */
  lemma {:induction false} SelectedIff(assets: seq<Asset>, url: string)
    ensures SelectAsset(assets) == Selected(url) <==>
      exists i: nat :: FirstInstaller(assets, i) && assets[i].downloadUrl == Some(url)
  {
    if assets == [] {
    } else if assets[0].name.None? {
    } else if EndsWith(assets[0].name.value, InstallerSuffix) {
      if SelectAsset(assets) == Selected(url) {
        assert FirstInstaller(assets, 0);
      }
      if exists i: nat :: FirstInstaller(assets, i) && assets[i].downloadUrl == Some(url) {
        var i: nat :| FirstInstaller(assets, i) && assets[i].downloadUrl == Some(url);
        assert i == 0;
      }
    } else {
      SelectedIff(assets[1..], url);
      if SelectAsset(assets) == Selected(url) {
        var i: nat :| FirstInstaller(assets[1..], i) && assets[1..][i].downloadUrl == Some(url);
        assert FirstInstaller(assets, i + 1);
      }
      if exists i: nat :: FirstInstaller(assets, i) && assets[i].downloadUrl == Some(url) {
        var i: nat :| FirstInstaller(assets, i) && assets[i].downloadUrl == Some(url);
        assert i > 0;
        assert FirstInstaller(assets[1..], i - 1);
      }
    }
  }

  /** Nothing is selected (and nothing raised) exactly when every asset has a
      name and none of the names ends in `.exe`. */
  lemma {:induction false} NoneSelectedIff(assets: seq<Asset>)
    ensures SelectAsset(assets) == NoneSelected <==>
      forall j :: 0 <= j < |assets| ==>
        assets[j].name.Some? && !EndsWith(assets[j].name.value, InstallerSuffix)
  {
    if assets != [] {
      NoneSelectedIff(assets[1..]);
      if assets[0].name.Some? && !EndsWith(assets[0].name.value, InstallerSuffix) {
        if SelectAsset(assets[1..]) == NoneSelected {
          forall j | 0 <= j < |assets|
            ensures assets[j].name.Some? && !EndsWith(assets[j].name.value, InstallerSuffix)
          {
            if j > 0 {
              assert assets[j] == assets[1..][j - 1];
            }
          }
        } else {
          var j :| 0 <= j < |assets[1..]| &&
            !(assets[1..][j].name.Some? && !EndsWith(assets[1..][j].name.value, InstallerSuffix));
          assert assets[j + 1] == assets[1..][j];
        }
      }
    }
  }

  /** Once the loop has stopped at an installer, later assets are ignored. */
  lemma {:induction false} LaterAssetsIgnored(prefix: seq<Asset>, later: seq<Asset>)
    requires SelectAsset(prefix).Selected?
    ensures SelectAsset(prefix + later) == SelectAsset(prefix)
  {
    assert prefix != [];
    assert (prefix + later)[0] == prefix[0];
    if !EndsWith(prefix[0].name.value, InstallerSuffix) {
      assert (prefix + later)[1..] == prefix[1..] + later;
      LaterAssetsIgnored(prefix[1..], later);
    }
  }

  // ---------------------------------------------------------------- decision

  /** The gate once the reply is a decoded release object. */
  function Decide(release: ReleaseInfo, current: string, confirmed: bool, updaterExists: bool): (r: Outcome)
    ensures r == UpToDate ==> !IsNewer(release, current)
    ensures r == Declined ==> IsNewer(release, current) && !confirmed
    ensures r == UpdaterMissing ==> IsNewer(release, current) && confirmed && !updaterExists
    ensures r.Handoff? ==>
      IsNewer(release, current) && confirmed && updaterExists &&
      |r.args| == 3 && r.args[0] == UpdaterExe && r.args[1] != "" && r.args[2] == TargetExe
  {
    if release.tagName.None? then Failed
    else
      match Parse(StripV(release.tagName.value))
      case None => Failed
      case Some(latest) =>
        match Parse(current)
        case None => Failed
        case Some(installed) =>
          if Compare(latest, installed) != Greater then UpToDate
          else if release.assets.None? then Failed
          else
            match SelectAsset(release.assets.value)
            case Malformed => Failed
            case NoneSelected => NoAsset
            case Selected(url) =>
              if url == "" then NoAsset
              else if !confirmed then Declined
              else if !updaterExists then UpdaterMissing
              else Handoff([UpdaterExe, url, TargetExe])
  }

  /** The whole of `check_for_updates` over the HTTP reply. */
  function CheckForUpdates(reply: Reply, current: string, confirmed: bool, updaterExists: bool): (r: Outcome)
    ensures r == NotFetched <==> reply.Response? && reply.status != 200
    ensures r.Handoff? ==>
      reply.Response? && reply.status == 200 && reply.body.Some? &&
      IsNewer(reply.body.value, current) && confirmed && updaterExists
  {
    match reply
    case NetworkError => Failed
    case Response(status, body) =>
      if status != 200 then NotFetched
      else if body.None? then Failed
      else Decide(body.value, current, confirmed, updaterExists)
  }

  /** The tag and the installed version both parse, and the tag is newer. */
  ghost predicate IsNewer(release: ReleaseInfo, current: string) {
    release.tagName.Some? &&
    Parse(StripV(release.tagName.value)).Some? && Parse(current).Some? &&
    Compare(Parse(StripV(release.tagName.value)).value, Parse(current).value) == Greater
  }

  /** The dialog is shown only on these outcomes. */
  predicate Prompted(o: Outcome) {
    o.Declined? || o.UpdaterMissing? || o.Handoff?
  }

  /** Nothing is offered, prompted or launched unless the latest version is
      strictly newer than the installed one. */
  lemma NothingUnlessNewer(release: ReleaseInfo, current: string, confirmed: bool, updaterExists: bool)
    ensures Decide(release, current, confirmed, updaterExists) in {NoAsset, Declined, UpdaterMissing}
         || Decide(release, current, confirmed, updaterExists).Handoff?
         ==> IsNewer(release, current)
  {
  }

  /** A well-formed tag that is equal to or older than the installed version
      leads only to "up to date". */
  lemma NotNewerIsUpToDate(release: ReleaseInfo, current: string, confirmed: bool, updaterExists: bool)
    requires release.tagName.Some?
    requires Parse(StripV(release.tagName.value)).Some? && Parse(current).Some?
    ensures Decide(release, current, confirmed, updaterExists) == UpToDate <==> !IsNewer(release, current)
  {
  }

  /** The updater is launched exactly when the tag is newer, the first
      installer asset has a non-empty URL, the user confirmed and updater.exe
      exists; its arguments are then exactly [updater.exe, url, GIMI_Pro.exe]. */
  lemma HandoffIff(release: ReleaseInfo, current: string, confirmed: bool, updaterExists: bool, args: seq<string>)
    ensures Decide(release, current, confirmed, updaterExists) == Handoff(args) <==>
      IsNewer(release, current) && release.assets.Some? &&
      (exists i: nat :: FirstInstaller(release.assets.value, i) &&
         release.assets.value[i].downloadUrl.Some? &&
         release.assets.value[i].downloadUrl.value != "" &&
         args == [UpdaterExe, release.assets.value[i].downloadUrl.value, TargetExe]) &&
      confirmed && updaterExists
  {
    if IsNewer(release, current) && release.assets.Some? {
      var assets := release.assets.value;
      match SelectAsset(assets)
      case Selected(url) =>
        SelectedIff(assets, url);
        forall i: nat | FirstInstaller(assets, i) && assets[i].downloadUrl.Some?
          ensures assets[i].downloadUrl.value == url
        {
          SelectedIff(assets, assets[i].downloadUrl.value);
        }
      case NoneSelected =>
        NoneSelectedIff(assets);
      case Malformed =>
        forall i: nat | FirstInstaller(assets, i) && assets[i].downloadUrl.Some?
          ensures false
        {
          SelectedIff(assets, assets[i].downloadUrl.value);
        }
    }
  }

  /** A declined dialog and a missing updater are the only other prompted
      outcomes, and neither launches anything. */
  lemma NoLaunchWithoutConsent(release: ReleaseInfo, current: string, confirmed: bool, updaterExists: bool)
    ensures var o := Decide(release, current, confirmed, updaterExists);
      (o == Declined <==> Prompted(o) && !confirmed) &&
      (o == UpdaterMissing <==> Prompted(o) && confirmed && !updaterExists) &&
      (o.Handoff? ==> confirmed && updaterExists)
  {
  }

  /** The confirmation dialog is shown exactly when the tag is newer and the
      first installer asset carries a non-empty URL. */
  lemma PromptedIff(release: ReleaseInfo, current: string, confirmed: bool, updaterExists: bool)
    ensures Prompted(Decide(release, current, confirmed, updaterExists)) <==>
      IsNewer(release, current) && release.assets.Some? &&
      (exists i: nat :: FirstInstaller(release.assets.value, i) &&
         release.assets.value[i].downloadUrl.Some? &&
         release.assets.value[i].downloadUrl.value != "")
  {
    if IsNewer(release, current) && release.assets.Some? {
      var assets := release.assets.value;
      match SelectAsset(assets)
      case Selected(url) =>
        SelectedIff(assets, url);
        forall i: nat | FirstInstaller(assets, i) && assets[i].downloadUrl.Some?
          ensures assets[i].downloadUrl.value == url
        {
          SelectedIff(assets, assets[i].downloadUrl.value);
        }
      case NoneSelected =>
        NoneSelectedIff(assets);
      case Malformed =>
        forall i: nat | FirstInstaller(assets, i) && assets[i].downloadUrl.Some?
          ensures false
        {
          SelectedIff(assets, assets[i].downloadUrl.value);
        }
    }
  }

  /** The dialog answer and the updater's presence only matter once the
      dialog is shown: on every other outcome they change nothing. */
  lemma AnswersIrrelevantUnlessPrompted(release: ReleaseInfo, current: string,
                                        confirmed: bool, updaterExists: bool,
                                        confirmed': bool, updaterExists': bool)
    requires !Prompted(Decide(release, current, confirmed, updaterExists))
    ensures Decide(release, current, confirmed', updaterExists') ==
            Decide(release, current, confirmed, updaterExists)
  {
  }

  /** No fault escapes: a network error, a non-object body, a missing field
      or an unparseable version each end in Failed, and Failed arises only
      from one of them. */
  lemma FailedIff(reply: Reply, current: string, confirmed: bool, updaterExists: bool)
    ensures CheckForUpdates(reply, current, confirmed, updaterExists) == Failed <==>
      reply.NetworkError? ||
      (reply.status == 200 &&
        (reply.body.None? ||
         reply.body.value.tagName.None? ||
         Parse(StripV(reply.body.value.tagName.value)).None? ||
         Parse(current).None? ||
         (IsNewer(reply.body.value, current) &&
           (reply.body.value.assets.None? || SelectAsset(reply.body.value.assets.value) == Malformed))))
  {
  }

  /** A reply that is not 200 is ignored silently, whatever its body. */
  lemma NonOkIgnored(status: int, body: Option<ReleaseInfo>, current: string, confirmed: bool, updaterExists: bool)
    requires status != 200
    ensures CheckForUpdates(Response(status, body), current, confirmed, updaterExists) == NotFetched
  {
  }

  lemma ParseTwoZeroZero()
    ensures Parse("2.0.0") == Some([2, 0, 0])
  {
    assert Format([2, 0, 0]) == "2.0.0" by {
      assert [2, 0, 0][1..] == [0, 0];
      assert [0, 0][1..] == [0];
    }
    ParseFormat([2, 0, 0]);
  }

  lemma ParseTagTwoOneZero()
    ensures Parse(StripV("v2.1.0")) == Some([2, 1, 0])
  {
    assert "v2.1.0"[1..] == "2.1.0";
    StripVNoV("2.1.0");
    assert Format([2, 1, 0]) == "2.1.0" by {
      assert [2, 1, 0][1..] == [1, 0];
      assert [1, 0][1..] == [0];
    }
    ParseFormat([2, 1, 0]);
  }

  /** Equal versions never trigger an update, even with a 'v' on the tag. */
  lemma EqualVersionIsUpToDate(assets: Option<seq<Asset>>, confirmed: bool, updaterExists: bool)
    ensures Decide(ReleaseInfo(Some("v2.0.0"), assets), "2.0.0", confirmed, updaterExists) == UpToDate
  {
    assert "v2.0.0"[1..] == "2.0.0";
    StripVNoV("2.0.0");
    ParseTwoZeroZero();
    CompareReflexive([2, 0, 0]);
  }

  lemma TwoOneZeroNewer()
    ensures Compare([2, 1, 0], [2, 0, 0]) == Greater
  {
    assert Rest([2, 1, 0]) == [1, 0];
    assert Rest([2, 0, 0]) == [0, 0];
  }

  /** A newer tag with one installer asset hands off that asset's URL once
      the user confirms and the updater exists. */
  lemma NewerWithInstallerHandsOff()
    ensures Decide(ReleaseInfo(Some("v2.1.0"), Some([Asset(Some("a.exe"), Some("u"))])), "2.0.0", true, true)
         == Handoff([UpdaterExe, "u", TargetExe])
  {
    ParseTagTwoOneZero();
    ParseTwoZeroZero();
    TwoOneZeroNewer();
    assert "a.exe"[1..] == InstallerSuffix;
    assert SelectAsset([Asset(Some("a.exe"), Some("u"))]) == Selected("u");
  }

  /** The same newer tag with no installer asset offers nothing. */
  lemma NewerWithoutInstallerOffersNothing(confirmed: bool, updaterExists: bool)
    ensures Decide(ReleaseInfo(Some("v2.1.0"), Some([Asset(Some("a.zip"), Some("u"))])), "2.0.0", confirmed, updaterExists)
         == NoAsset
  {
    ParseTagTwoOneZero();
    ParseTwoZeroZero();
    TwoOneZeroNewer();
    assert "a.zip"[1..] != InstallerSuffix by {
      assert "a.zip"[1..][1] == 'z';
    }
    assert [Asset(Some("a.zip"), Some("u"))][1..] == [];
    assert SelectAsset([Asset(Some("a.zip"), Some("u"))]) == NoneSelected;
  }
}
