/** Choosing the update to install among the published releases. */
module Updates {
  import opened Common
  import opened Sorting
  import opened VersionText
  import opened Precedence
  import opened Versions

  const MAX_RELEASE_ASSET_BYTES := 512 * 1024 * 1024
  const DOWNLOADS := "https://github.com/getclarvis/clarvis-releases/releases/download/"

  datatype Asset = Asset(name: string, size: int, digest: string, state: string, url: string)

  datatype Record = Record(tagName: string, draft: bool, prerelease: bool, publishedAt: string, assets: seq<Asset>)

  datatype Selection = Selection(version: string, tagName: string, asset: Asset)

  datatype Outcome = Invalid | NoUpdate | Update(selection: Selection)

  function AssetName(version: string, target: string): string {
    "clarvis-v" + version + "-" + target + ".tar.gz"
  }

  function DownloadUrl(tagName: string, assetName: string): string {
    DOWNLOADS + tagName + "/" + assetName
  }

  predicate LowerHex(c: char) {
    '0' <= c <= '9' || 'a' <= c <= 'f'
  }

  predicate Sha256(digest: string) {
    |digest| == 71 && digest[..7] == "sha256:" && forall i :: 7 <= i < 71 ==> LowerHex(digest[i])
  }

  function Named(assets: seq<Asset>, name: string): (r: seq<Asset>)
    ensures forall a :: a in r <==> a in assets && a.name == name
  {
    if assets == [] then []
    else
      assert assets == [assets[0]] + assets[1..];
      (if assets[0].name == name then [assets[0]] else []) + Named(assets[1..], name)
  }

  function ReleaseVersion(record: Record, number: Reading): Option<string> {
    if |record.tagName| == 0 || record.tagName[0] != 'v' then None
    else
      var version := record.tagName[1..];
      match ParseProductVersion(version, number)
      case None => None
      case Some(parsed) =>
        if record.tagName != "v" + parsed.raw then None
        else if record.prerelease != (|parsed.version.pre| > 0) then None
        else Some(version)
  }

  function EligibleAsset(record: Record, version: string, target: string): Option<Asset> {
    var name := AssetName(version, target);
    var matches := Named(record.assets, name);
    if |matches| != 1 then None
    else
      var asset := matches[0];
      if asset.state != "uploaded" then None
      else if asset.size >= SAFE_LIMIT || asset.size <= 0 || asset.size > MAX_RELEASE_ASSET_BYTES then None
      else if !Sha256(asset.digest) then None
      else if asset.url != DownloadUrl(record.tagName, name) then None
      else Some(asset)
  }

  /** The version a text names; texts that name none are all read alike. */
  function VersionOf(text: string, number: Reading): Version {
    match ParseProductVersion(text, number)
    case None => Version(0, 0, 0, [])
    case Some(p) => p.version
  }

  /** The asset is the only one of its name. */
  ghost predicate OnlyNamed(assets: seq<Asset>, name: string, asset: Asset) {
    exists i :: 0 <= i < |assets| && assets[i] == asset && asset.name == name
      && forall j :: 0 <= j < |assets| && j != i ==> assets[j].name != name
  }

  /** A SHA-256 digest: its label, and 64 lower-case hexadecimal digits. */
  ghost predicate Digest(digest: string) {
    exists hex :: digest == "sha256:" + hex && |hex| == 64 && forall i :: 0 <= i < 64 ==> hex[i] in "0123456789abcdef"
  }

  /** The one asset of the release for this target is complete, at most 512 MiB, and where it must be. */
  ghost predicate OffersAsset(record: Record, version: string, target: string, asset: Asset) {
    var name := "clarvis-v" + version + "-" + target + ".tar.gz";
    && OnlyNamed(record.assets, name, asset) && asset.state == "uploaded"
    && 0 < asset.size <= 0x2000_0000 && Digest(asset.digest)
    && asset.url == "https://github.com/getclarvis/clarvis-releases/releases/download/" + record.tagName + "/" + name
  }

  lemma NamedOnce(assets: seq<Asset>, name: string, asset: Asset)
    ensures Named(assets, name) == [asset] <==> OnlyNamed(assets, name, asset)
  {
    if Named(assets, name) == [asset] {
      var i := PlaceOf(assets, name, asset);
    }
    if i :| 0 <= i < |assets| && assets[i] == asset && asset.name == name
            && forall j :: 0 <= j < |assets| && j != i ==> assets[j].name != name {
      NamedAt(assets, name, i);
    }
  }

  lemma {:induction false} PlaceOf(assets: seq<Asset>, name: string, asset: Asset) returns (i: nat)
    requires Named(assets, name) == [asset]
    ensures i < |assets| && assets[i] == asset && asset.name == name
    ensures forall j :: 0 <= j < |assets| && j != i ==> assets[j].name != name
  {
    var rest := assets[1..];
    if assets[0].name == name {
      i := 0;
      assert Named(assets, name)[1..] == Named(rest, name) == [];
      forall j | 0 < j < |assets| ensures assets[j].name != name {
        assert rest[j - 1] == assets[j];
        assert rest[j - 1] in rest;
      }
    } else {
      i := PlaceOf(rest, name, asset);
      i := i + 1;
      assert forall j :: 0 < j < |assets| ==> assets[j] == rest[j - 1];
    }
  }

  lemma {:induction false} NamedAt(assets: seq<Asset>, name: string, i: nat)
    requires i < |assets| && assets[i].name == name && forall j :: 0 <= j < |assets| && j != i ==> assets[j].name != name
    ensures Named(assets, name) == [assets[i]]
  {
    var rest := assets[1..];
    assert forall j :: 0 < j < |assets| ==> assets[j] == rest[j - 1];
    if i == 0 {
      NoneNamed(rest, name);
    } else {
      NamedAt(rest, name, i - 1);
    }
  }

  lemma {:induction false} NoneNamed(assets: seq<Asset>, name: string)
    requires forall j :: 0 <= j < |assets| ==> assets[j].name != name
    ensures Named(assets, name) == []
  {
    if assets != [] {
      NoneNamed(assets[1..], name);
    }
  }

  lemma DigestIff(digest: string)
    ensures Sha256(digest) <==> Digest(digest)
  {
    if Sha256(digest) {
      var hex := digest[7..];
      assert digest == "sha256:" + hex;
      forall i | 0 <= i < 64 ensures hex[i] in "0123456789abcdef" {
        HexIff(digest[7 + i]);
      }
    }
    if hex :| digest == "sha256:" + hex && |hex| == 64 && forall i :: 0 <= i < 64 ==> hex[i] in "0123456789abcdef" {
      assert digest[..7] == "sha256:";
      forall i | 7 <= i < 71 ensures LowerHex(digest[i]) {
        assert digest[i] == hex[i - 7];
        HexIff(digest[i]);
      }
    }
  }

  lemma HexIff(c: char)
    ensures LowerHex(c) <==> c in "0123456789abcdef"
  {
    assert '0' <= c <= '9' ==> "0123456789abcdef"[c as int - '0' as int] == c;
    assert 'a' <= c <= 'f' ==> "0123456789abcdef"[c as int - 'a' as int + 10] == c;
  }

  /** The filter finds exactly the asset that the release offers. */
  lemma EligibleIff(record: Record, version: string, target: string, asset: Asset)
    ensures EligibleAsset(record, version, target) == Some(asset) <==> OffersAsset(record, version, target, asset)
  {
    hide Named, Sha256, Digest, OnlyNamed;
    var name := AssetName(version, target);
    assert name == "clarvis-v" + version + "-" + target + ".tar.gz";
    NamedOnce(record.assets, name, asset);
    DigestIff(asset.digest);
  }

  /** A published release that is newer than the installed version, and stable if that one is. */
  ghost predicate Offers(record: Record, current: string, target: string, number: Reading, s: Selection) {
    var version, installed := VersionOf(s.version, number), VersionOf(current, number);
    && !record.draft && record.publishedAt != ""
    && record.tagName == s.tagName == "v" + s.version && ParseProductVersion(s.version, number).Some?
    && (record.prerelease <==> version.pre != [])
    && Order(version, installed) > 0
    && (installed.pre == [] ==> version.pre == [])
    && OffersAsset(record, s.version, target, s.asset)
  }

  /** Descending precedence. */
  function NewestFirst(number: Reading): (Selection, Selection) -> int {
    (l: Selection, r: Selection) => Order(VersionOf(r.version, number), VersionOf(l.version, number))
  }

  lemma NewestFirstIsComparator(number: Reading)
    ensures Comparator(NewestFirst(number))
  {
    hide Order, VersionOf;
    OrderIsTotal();
  }

  lemma RawIsText(s: string, number: Reading)
    ensures ParseProductVersion(s, number).Some? ==> ParseProductVersion(s, number).value.raw == s
  {
  }

  /** The test the loop makes of one release. */
  method Consider(record: Record, current: string, target: string, number: Reading) returns (s: Option<Selection>)
    requires ParseProductVersion(current, number).Some?
    ensures s.Some? ==> Offers(record, current, target, number, s.value)
    ensures s.None? ==> forall t :: !Offers(record, current, target, number, t)
  {
    hide Order, ParseProductVersion, EligibleAsset, OffersAsset;
    if record.draft || |record.publishedAt| == 0 {
      return None;
    }
    var version := ReleaseVersion(record, number);
    if record.tagName != [] {
      RawIsText(record.tagName[1..], number);
    }
    assert forall t: Selection :: record.tagName == "v" + t.version ==> t.version == record.tagName[1..];
    if version.None? {
      return None;
    }
    var difference := CompareProductVersions(version.value, current, number);
    if difference.value <= 0 {
      return None;
    }
    if |VersionOf(current, number).pre| == 0 && record.prerelease {
      return None;
    }
    var asset := EligibleAsset(record, version.value, target);
    forall a ensures asset == Some(a) <==> OffersAsset(record, version.value, target, a) {
      EligibleIff(record, version.value, target, a);
    }
    if asset.None? {
      return None;
    }
    return Some(Selection(version.value, record.tagName, asset.value));
  }

  ghost predicate NothingOffered(releases: seq<Record>, current: string, target: string, number: Reading) {
    forall j, t :: 0 <= j < |releases| ==> !Offers(releases[j], current, target, number, t)
  }

  /** What the loop has gathered: each selection with the place of the release that offers it. */
  ghost predicate Gathered(releases: seq<Record>, k: nat, current: string, target: string, number: Reading,
                           selections: seq<Selection>, places: seq<nat>)
  {
    && k <= |releases| && |places| == |selections|
    && (forall m :: 0 <= m < |places| ==>
          places[m] < k && Offers(releases[places[m]], current, target, number, selections[m]))
    && (forall m, n :: 0 <= m < n < |places| ==> places[m] < places[n])
    && (forall j :: 0 <= j < k && j !in places ==> forall t :: !Offers(releases[j], current, target, number, t))
  }

  /** What is offered, condition by condition, on the record as published. */
  lemma OffersIff(record: Record, current: string, target: string, number: Reading, version: string, asset: Asset)
    requires ParseProductVersion(current, number).Some? && ParseProductVersion(version, number).Some?
    ensures var installed, published :=
      ParseProductVersion(current, number).value.version, ParseProductVersion(version, number).value.version;
      Offers(record, current, target, number, Selection(version, "v" + version, asset)) <==>
      && !record.draft && |record.publishedAt| > 0 && record.tagName == "v" + version
      && record.prerelease == (published.pre != []) && Order(installed, published) < 0
      && !(installed.pre == [] && record.prerelease)
      && EligibleAsset(record, version, target) == Some(asset)
  {
    EligibleIff(record, version, target, asset);
    OrderFlip(VersionOf(version, number), VersionOf(current, number));
    hide Order, ParseProductVersion, EligibleAsset, OffersAsset;
  }

  lemma OffersOne(record: Record, current: string, target: string, number: Reading, s: Selection, t: Selection)
    requires Offers(record, current, target, number, s) && Offers(record, current, target, number, t)
    ensures s == t
  {
    hide Order, ParseProductVersion, Named, Sha256;
    assert s.version == record.tagName[1..] == t.version;
  }

  /**
   * Selects the update: no greater release is on offer, and no equal one earlier in the list; `NoUpdate`
   * means that nothing is on offer, and `Invalid` that the installed version cannot be read. What is selected
   * is strictly newer than the installed version, and stable if that one is.
   */
  method SelectUpdateRelease(current: string, target: string, releases: seq<Record>, number: Reading)
    returns (outcome: Outcome)
    ensures outcome == Invalid <==> ParseProductVersion(current, number).None?
    ensures outcome == NoUpdate <==>
      (ParseProductVersion(current, number).Some? && NothingOffered(releases, current, target, number))
    ensures outcome.Update? ==>
      exists i :: 0 <= i < |releases| && BestOffer(releases, i, current, target, number, outcome.selection)
    ensures outcome.Update? ==>
      var installed, selected := VersionOf(current, number), VersionOf(outcome.selection.version, number);
      Order(selected, installed) > 0 && Order(installed, selected) < 0 && (installed.pre == [] ==> selected.pre == [])
  {
    hide Order, ParseProductVersion, Offers, VersionOf, NewestFirst;
    if ParseProductVersion(current, number).None? {
      return Invalid;
    }
    var selections: seq<Selection> := [];
    ghost var places: seq<nat> := [];
    for k := 0 to |releases|
      invariant Gathered(releases, k, current, target, number, selections, places)
    {
      var s := Consider(releases[k], current, target, number);
      if s.Some? {
        selections := selections + [s.value];
        places := places + [k];
      }
    }
    var sorted := Sort(NewestFirst(number), selections);
    if |sorted| == 0 {
      return NoUpdate;
    }
    HeadIsBest(releases, current, target, number, selections, places);
    assert Offers(releases[places[FirstLeast(NewestFirst(number), selections)]], current, target, number, sorted[0]);
    OfferUpgrades(releases[places[FirstLeast(NewestFirst(number), selections)]], current, target, number, sorted[0]);
    return Update(sorted[0]);
  }

  lemma OfferUpgrades(record: Record, current: string, target: string, number: Reading, s: Selection)
    requires Offers(record, current, target, number, s)
    ensures var installed, selected := VersionOf(current, number), VersionOf(s.version, number);
      Order(selected, installed) > 0 && Order(installed, selected) < 0 && (installed.pre == [] ==> selected.pre == [])
  {
    hide Order;
    OrderFlip(VersionOf(s.version, number), VersionOf(current, number));
  }

  /** `s` is what `releases[i]` offers; no other offer is greater, and no earlier one is as great. */
  ghost predicate BestOffer(releases: seq<Record>, i: nat, current: string, target: string, number: Reading, s: Selection)
    requires i < |releases|
  {
    && Offers(releases[i], current, target, number, s)
    && forall j, t :: 0 <= j < |releases| && Offers(releases[j], current, target, number, t) ==>
         && Order(VersionOf(t.version, number), VersionOf(s.version, number)) <= 0
         && (j < i ==> Order(VersionOf(t.version, number), VersionOf(s.version, number)) < 0)
  }

  lemma HeadIsBest(releases: seq<Record>, current: string, target: string, number: Reading,
                   selections: seq<Selection>, places: seq<nat>)
    requires Gathered(releases, |releases|, current, target, number, selections, places) && selections != []
    ensures var m := FirstLeast(NewestFirst(number), selections);
      places[m] < |releases| && BestOffer(releases, places[m], current, target, number, selections[m])
  {
    hide Order, ParseProductVersion, Offers, VersionOf, FirstLeast;
    var cmp := NewestFirst(number);
    var m := FirstLeast(cmp, selections);
    NewestFirstIsComparator(number);
    FirstLeastIsLeast(cmp, selections);
    forall j, t | 0 <= j < |releases| && Offers(releases[j], current, target, number, t)
      ensures Order(VersionOf(t.version, number), VersionOf(selections[m].version, number)) <= 0
      ensures j < places[m] ==> Order(VersionOf(t.version, number), VersionOf(selections[m].version, number)) < 0
    {
      var n :| 0 <= n < |places| && places[n] == j;
      OffersOne(releases[j], current, target, number, t, selections[n]);
      assert cmp(selections[m], selections[n]) <= 0;
      if j < places[m] {
        assert n < m;
        assert cmp(selections[n], selections[m]) > 0;
        OrderFlip(VersionOf(t.version, number), VersionOf(selections[m].version, number));
      }
    }
  }
}
