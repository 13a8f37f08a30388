/**
  Choosing the interface to advertise (shared/src/platform/macos/network.rs,
  choose_preferred_interface): an active bridge0 first, then an active en*
  interface whose address starts with 169, then any interface that is up
  and running.
 */
module Network {
  import opened Wrappers
  import opened Bytes

  datatype Ipv4Addr = Ipv4Addr(a: u8, b: u8, c: u8, d: u8) {
    function Octets(): (o: seq<u8>)
      ensures |o| == 4 && o[0] == a
    {
      [a, b, c, d]
    }
  }

  datatype InterfaceInfo = InterfaceInfo(name: string, ipv4: Ipv4Addr, isUp: bool, isRunning: bool)

  predicate IsActive(i: InterfaceInfo) {
    i.isUp && i.isRunning
  }

  /** First preference: an active interface named bridge0. */
  predicate IsBridge(i: InterfaceInfo) {
    IsActive(i) && i.name == "bridge0"
  }

  /** Second preference: an active en* interface whose address starts with 169. */
  predicate IsEnWith169(i: InterfaceInfo) {
    IsActive(i) && |i.name| >= 2 && i.name[..2] == "en" && i.ipv4.Octets()[0] == 169
  }

  /** The position of the first element satisfying p, as `iter().find` scans. */
  function FirstIndex(xs: seq<InterfaceInfo>, p: InterfaceInfo -> bool): (r: Option<nat>)
    ensures r.Some? ==> r.value < |xs| && p(xs[r.value]) && forall j :: 0 <= j < r.value ==> !p(xs[j])
    ensures r.None? ==> forall j :: 0 <= j < |xs| ==> !p(xs[j])
  {
    if xs == [] then None
    else if p(xs[0]) then Some(0)
    else
      match FirstIndex(xs[1..], p)
      case None => None
      case Some(i) => Some(i + 1)
  }

  /** `iter().find(p).cloned()`. */
  function Find(xs: seq<InterfaceInfo>, p: InterfaceInfo -> bool): (r: Option<InterfaceInfo>)
    ensures r.Some? ==> r.value in xs && p(r.value)
    ensures r.None? <==> forall j :: 0 <= j < |xs| ==> !p(xs[j])
  {
    match FirstIndex(xs, p)
    case None => None
    case Some(i) => Some(xs[i])
  }

  function ChoosePreferredInterface(interfaces: seq<InterfaceInfo>): (r: Option<InterfaceInfo>)
    ensures r.Some? ==> r.value in interfaces && IsActive(r.value)
    ensures r.None? <==> forall j :: 0 <= j < |interfaces| ==> !IsActive(interfaces[j])
  {
    var bridge := Find(interfaces, IsBridge);
    if bridge.Some? then bridge
    else
      var en169 := Find(interfaces, IsEnWith169);
      if en169.Some? then en169
      else Find(interfaces, IsActive)
  }

  // ---------------------------------------------------------------- lemmas

  /** Some element satisfies p exactly when Find answers, and the answer is the first such element. */
  lemma {:induction false} FindFirst(xs: seq<InterfaceInfo>, p: InterfaceInfo -> bool)
    ensures Find(xs, p).Some? <==> exists i :: 0 <= i < |xs| && p(xs[i])
    ensures Find(xs, p).Some? ==> exists i ::
      && 0 <= i < |xs| && Find(xs, p).value == xs[i] && p(xs[i]) && forall j :: 0 <= j < i ==> !p(xs[j])
  {
    match FirstIndex(xs, p)
    case None =>
    case Some(i) =>
      assert p(xs[i]);
  }

  /** Any active bridge0 wins, and the first one in list order is the one returned. */
  lemma PrefersBridge(interfaces: seq<InterfaceInfo>, k: nat)
    requires k < |interfaces| && IsBridge(interfaces[k])
    ensures exists i ::
      && 0 <= i <= k && ChoosePreferredInterface(interfaces) == Some(interfaces[i])
      && IsBridge(interfaces[i]) && forall j :: 0 <= j < i ==> !IsBridge(interfaces[j])
  {
    FindFirst(interfaces, IsBridge);
    var i := FirstIndex(interfaces, IsBridge).value;
    assert ChoosePreferredInterface(interfaces) == Some(interfaces[i]);
  }

  /** Without an active bridge0, the first active en* interface with a 169 address wins. */
  lemma PrefersEnWith169(interfaces: seq<InterfaceInfo>, k: nat)
    requires forall j :: 0 <= j < |interfaces| ==> !IsBridge(interfaces[j])
    requires k < |interfaces| && IsEnWith169(interfaces[k])
    ensures exists i ::
      && 0 <= i <= k && ChoosePreferredInterface(interfaces) == Some(interfaces[i])
      && IsEnWith169(interfaces[i]) && forall j :: 0 <= j < i ==> !IsEnWith169(interfaces[j])
  {
    FindFirst(interfaces, IsBridge);
    var i := FirstIndex(interfaces, IsEnWith169).value;
    assert ChoosePreferredInterface(interfaces) == Some(interfaces[i]);
  }

  /** With neither preference available, the first active interface in list order is returned. */
  lemma FallsBackToFirstActive(interfaces: seq<InterfaceInfo>)
    requires forall j :: 0 <= j < |interfaces| ==> !IsBridge(interfaces[j]) && !IsEnWith169(interfaces[j])
    ensures ChoosePreferredInterface(interfaces) == Find(interfaces, IsActive)
  {
    FindFirst(interfaces, IsBridge);
    FindFirst(interfaces, IsEnWith169);
  }

  /** The three cases the source's tests check. */
  lemma TestedChoices()
    ensures ChoosePreferredInterface([
        InterfaceInfo("en0", Ipv4Addr(10, 0, 0, 5), true, true),
        InterfaceInfo("bridge0", Ipv4Addr(169, 254, 10, 2), true, true)]).value.name == "bridge0"
    ensures ChoosePreferredInterface([
        InterfaceInfo("en0", Ipv4Addr(10, 0, 0, 5), true, true),
        InterfaceInfo("en1", Ipv4Addr(192, 168, 1, 2), false, false)]).value.name == "en0"
    ensures ChoosePreferredInterface([
        InterfaceInfo("en0", Ipv4Addr(10, 0, 0, 5), true, true),
        InterfaceInfo("en5", Ipv4Addr(169, 254, 1, 20), true, true)]).value.name == "en5"
  {
  }
}
