/** The update policy: which valid images a device at some version may install. */
module FirmwarePolicy {
  import opened Basics
  import opened Bytes
  import opened Transport
  import opened Firmware

  datatype Version = Version(major: U16, minor: U16, patch: U16)

  function VersionOf(h: Header): (r: Version) { Version(h.major, h.minor, h.patch) }

  /** semver_cmp. */
  function Compare(a: Version, b: Version): (r: int) {
    if a.major != b.major then (if a.major > b.major then 1 else -1)
    else if a.minor != b.minor then (if a.minor > b.minor then 1 else -1)
    else if a.patch != b.patch then (if a.patch > b.patch then 1 else -1)
    else 0
  }

  /** The version as one number. */
  function Rank(v: Version): (r: nat) { (v.major * 0x1_0000 + v.minor) * 0x1_0000 + v.patch }

  /** The comparison is the order of the ranks, so it is a total order on versions. */
  lemma CompareIsOrder(a: Version, b: Version)
    ensures Compare(a, b) > 0 <==> Rank(a) > Rank(b)
    ensures Compare(a, b) < 0 <==> Rank(a) < Rank(b)
    ensures Compare(a, b) == 0 <==> a == b
    ensures Compare(a, b) == -Compare(b, a)
  {
  }

  /** An image that may replace the version current. */
  predicate Acceptable(file: seq<Byte>, current: Version, allowDowngrade: bool) {
    Valid(file) && (allowDowngrade || Compare(VersionOf(Check(file).value.0), current) > 0)
  }

  /** check_update_policy after the current version is parsed. Reading may fail, but never makes a bad image pass. */
  method CheckUpdate(file: seq<Byte>, plan: seq<Answer>, current: Version, allowDowngrade: bool) returns (accepted: bool)
    ensures accepted ==> Acceptable(file, current, allowDowngrade)
    ensures Failed !in plan ==> (accepted <==> Acceptable(file, current, allowDowngrade))
  {
    var r := VerifyFile(file, plan);
    if r.None? {
      return false;
    }
    var (h, sizeOk, crcOk) := r.value;
    if !sizeOk || !crcOk {
      return false;
    }
    var cmp := Compare(VersionOf(h), current);
    return allowDowngrade || cmp > 0;
  }

  /** The version that an offered file would install on a device at current, downgrades disallowed. */
  function Upgrade(file: seq<Byte>, current: Version): (r: Option<Version>)
    ensures r.Some? <==> Acceptable(file, current, false)
    ensures r.Some? ==> Rank(r.value) > Rank(current)
  {
    if Acceptable(file, current, false) then
      var v := VersionOf(Check(file).value.0);
      CompareIsOrder(v, current);
      Some(v)
    else None
  }

  /** All the versions of a device that is offered the files in turn, where `upgrade` says what an offer installs. */
  function Installed(upgrade: (seq<Byte>, Version) -> Option<Version>, first: Version, files: seq<seq<Byte>>, passes: seq<bool>)
    : (r: seq<Version>)
    requires |files| == |passes|
    ensures r != []
  {
    if files == [] then [first]
    else
      var n := |files| - 1;
      var had := Installed(upgrade, first, files[..n], passes[..n]);
      match upgrade(files[n], had[|had| - 1])
      case Some(v) => if passes[n] then had + [v] else had
      case None => had
  }

  /**
   A device that is offered the files in turn and installs those that pass, downgrades disallowed:
   all the versions it has had. `passes` says which acceptable offers were read without failure.
   */
  function Versions(first: Version, files: seq<seq<Byte>>, passes: seq<bool>): (r: seq<Version>)
    requires |files| == |passes|
  {
    Installed(Upgrade, first, files, passes)
  }

  predicate Increasing(vs: seq<Version>) { forall i, j :: 0 <= i < j < |vs| ==> Rank(vs[i]) < Rank(vs[j]) }

  lemma {:induction false} InstalledIncreases(upgrade: (seq<Byte>, Version) -> Option<Version>, first: Version,
                                              files: seq<seq<Byte>>, passes: seq<bool>)
    requires |files| == |passes|
    requires forall f, v :: upgrade(f, v).Some? ==> Rank(upgrade(f, v).value) > Rank(v)
    ensures Increasing(Installed(upgrade, first, files, passes))
    decreases |files|
  {
    if files != [] {
      var n := |files| - 1;
      var had := Installed(upgrade, first, files[..n], passes[..n]);
      InstalledIncreases(upgrade, first, files[..n], passes[..n]);
      var next := upgrade(files[n], had[|had| - 1]);
      if next.Some? {
        IncreasingSnoc(had, next.value);
      }
    }
  }

  /** Over every update run the versions strictly increase: no version ever comes back. */
  lemma VersionsIncrease(first: Version, files: seq<seq<Byte>>, passes: seq<bool>)
    requires |files| == |passes|
    ensures Increasing(Versions(first, files, passes))
  {
    InstalledIncreases(Upgrade, first, files, passes);
  }

  lemma IncreasingSnoc(vs: seq<Version>, v: Version)
    requires Increasing(vs) && vs != [] && Rank(v) > Rank(vs[|vs| - 1])
    ensures Increasing(vs + [v])
  {
    var ws := vs + [v];
    forall i, j | 0 <= i < j < |ws|
      ensures Rank(ws[i]) < Rank(ws[j])
    {
      if j == |vs| && i < |vs| - 1 {
        assert Rank(vs[i]) < Rank(vs[|vs| - 1]);
      }
    }
  }

  /** With downgrades allowed any valid image passes, whatever version was there. */
  lemma DowngradesPass(meta: Header, payload: seq<Byte>, current: Version)
    requires |payload| <= MAX_IMAGE
    ensures Acceptable(Image(meta, payload), current, true)
    ensures Acceptable(Image(meta, payload), current, false) <==> Rank(VersionOf(meta)) > Rank(current)
  {
    PackedIsValid(meta, payload);
    CompareIsOrder(VersionOf(meta), current);
  }
}
