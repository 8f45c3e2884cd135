/** The address-selection scan of `DhtNetwork.find_ip`: from the addresses bound
    to one interface, pick an IPv4 and a non-link-local IPv6 address. The
    interface table itself comes from the operating system and is a parameter. */
module Interfaces {
  import opened Wrappers

  datatype Family = V4 | V6

  /** One address of the interface, as `ipaddress.ip_address` classifies it. */
  datatype IfAddr = IfAddr(text: string, family: Family, linkLocal: bool)

  /** The (IPv4, IPv6) pair `find_ip` returns. */
  datatype AddrPair = AddrPair(ip4: Option<string>, ip6: Option<string>)

  /** The pair returned for an unset or `'any'` interface. */
  const Wildcard := AddrPair(Some("0.0.0.0"), Some(""))

  predicate IsV4(a: IfAddr) {
    a.family == V4
  }

  /** An IPv6 address the scan may keep: link-local ones are skipped. */
  predicate IsGlobalV6(a: IfAddr) {
    a.family == V6 && !a.linkLocal
  }

  /** Reference definition: the text of the last IPv4 address in `s`, if any. */
  function LastV4(s: seq<IfAddr>): Option<string>
    decreases |s|
  {
    if |s| == 0 then None
    else if IsV4(s[|s| - 1]) then Some(s[|s| - 1].text)
    else LastV4(s[..|s| - 1])
  }

  /** Reference definition: the text of the last non-link-local IPv6 address in `s`, if any. */
  function LastGlobalV6(s: seq<IfAddr>): Option<string>
    decreases |s|
  {
    if |s| == 0 then None
    else if IsGlobalV6(s[|s| - 1]) then Some(s[|s| - 1].text)
    else LastGlobalV6(s[..|s| - 1])
  }

  /** Both halves of the pair chosen from the prefix `s` are truthy: the scan's stop test. */
  predicate BothChosen(s: seq<IfAddr>) {
    Truthy(LastV4(s)) && Truthy(LastGlobalV6(s))
  }

  /** The scan's state after the last examined address. */
  datatype ScanState = ScanState(pair: AddrPair, scanned: nat)

  /** The `for ip in ...ipaddr` loop, from index `i` on, with the pair chosen so far. */
  function ScanFrom(addrs: seq<IfAddr>, i: nat, chosen: AddrPair): (r: ScanState)
    requires i <= |addrs|
    ensures i <= r.scanned <= |addrs|
    ensures r.scanned < |addrs| ==> Truthy(r.pair.ip4) && Truthy(r.pair.ip6)
    decreases |addrs| - i
  {
    if i == |addrs| then ScanState(chosen, i)
    else
      var a := addrs[i];
      var ip4 := if IsV4(a) then Some(a.text) else chosen.ip4;
      var ip6 := if IsGlobalV6(a) then Some(a.text) else chosen.ip6;
      if Truthy(ip4) && Truthy(ip6) then ScanState(AddrPair(ip4, ip6), i + 1)
      else ScanFrom(addrs, i + 1, AddrPair(ip4, ip6))
  }

  /** The whole scan, starting with nothing chosen. */
  function Scan(addrs: seq<IfAddr>): ScanState {
    ScanFrom(addrs, 0, AddrPair(None, None))
  }

  /** `find_ip(iface)` over the interface's address list `addrs`. */
  function FindIp(iface: Option<string>, addrs: seq<IfAddr>): (r: AddrPair)
    ensures !Truthy(iface) || iface == Some("any") ==> r == Wildcard
  {
    if !Truthy(iface) || iface == Some("any") then Wildcard
    else Scan(addrs).pair
  }

  lemma LastStep(s: seq<IfAddr>, i: nat)
    requires i < |s|
    ensures LastV4(s[..i + 1]) == if IsV4(s[i]) then Some(s[i].text) else LastV4(s[..i])
    ensures LastGlobalV6(s[..i + 1]) == if IsGlobalV6(s[i]) then Some(s[i].text) else LastGlobalV6(s[..i])
  {
    assert s[..i + 1][..i] == s[..i];
  }

  /** The loop keeps, at every step, the last IPv4 and last non-link-local IPv6
      address seen so far, and stops right after the first prefix where both are chosen. */
  lemma {:induction false} ScanFromMatchesReference(addrs: seq<IfAddr>, i: nat, chosen: AddrPair)
    requires i <= |addrs|
    requires chosen == AddrPair(LastV4(addrs[..i]), LastGlobalV6(addrs[..i]))
    requires forall k :: 0 < k <= i ==> !BothChosen(addrs[..k])
    ensures var r := ScanFrom(addrs, i, chosen);
      && i <= r.scanned <= |addrs|
      && r.pair == AddrPair(LastV4(addrs[..r.scanned]), LastGlobalV6(addrs[..r.scanned]))
      && (forall k :: 0 < k < r.scanned ==> !BothChosen(addrs[..k]))
      && (r.scanned < |addrs| ==> BothChosen(addrs[..r.scanned]))
    decreases |addrs| - i
  {
    if i < |addrs| {
      LastStep(addrs, i);
      var next := AddrPair(LastV4(addrs[..i + 1]), LastGlobalV6(addrs[..i + 1]));
      if !BothChosen(addrs[..i + 1]) {
        ScanFromMatchesReference(addrs, i + 1, next);
      }
    }
  }

  /** `find_ip` on a named interface returns the last IPv4 and the last non-link-local
      IPv6 address of the shortest prefix of the list in which both are chosen (or of
      the whole list when no prefix has both), and examines nothing after that prefix. */
  lemma ScanStopsAtFirstPair(addrs: seq<IfAddr>)
    ensures var r := Scan(addrs);
      && r.scanned <= |addrs|
      && r.pair == AddrPair(LastV4(addrs[..r.scanned]), LastGlobalV6(addrs[..r.scanned]))
      && (forall k :: 0 < k < r.scanned ==> !BothChosen(addrs[..k]))
      && (r.scanned < |addrs| ==> BothChosen(addrs[..r.scanned]))
  {
    ScanFromMatchesReference(addrs, 0, AddrPair(None, None));
  }

  lemma {:induction false} LastV4Sound(s: seq<IfAddr>)
    ensures LastV4(s).Some? ==> exists j :: 0 <= j < |s| && IsV4(s[j]) && s[j].text == LastV4(s).value
    decreases |s|
  {
    if |s| > 0 && !IsV4(s[|s| - 1]) {
      LastV4Sound(s[..|s| - 1]);
      if LastV4(s).Some? {
        var j :| 0 <= j < |s| - 1 && IsV4(s[..|s| - 1][j]) && s[..|s| - 1][j].text == LastV4(s).value;
        assert s[j] == s[..|s| - 1][j];
      }
    }
  }

  lemma {:induction false} LastGlobalV6Sound(s: seq<IfAddr>)
    ensures LastGlobalV6(s).Some? ==>
      exists j :: 0 <= j < |s| && IsGlobalV6(s[j]) && s[j].text == LastGlobalV6(s).value
    decreases |s|
  {
    if |s| > 0 && !IsGlobalV6(s[|s| - 1]) {
      LastGlobalV6Sound(s[..|s| - 1]);
      if LastGlobalV6(s).Some? {
        var j :| 0 <= j < |s| - 1 && IsGlobalV6(s[..|s| - 1][j]) && s[..|s| - 1][j].text == LastGlobalV6(s).value;
        assert s[j] == s[..|s| - 1][j];
      }
    }
  }

  /** On a named interface, `find_ip` returns only addresses of the interface: an IPv4
      address in the IPv4 slot and a non-link-local IPv6 address in the IPv6 slot. */
  lemma FindIpSelectsOnlyListed(iface: Option<string>, addrs: seq<IfAddr>)
    requires Truthy(iface) && iface != Some("any")
    ensures var r := FindIp(iface, addrs);
      && (r.ip4.Some? ==> exists a :: a in addrs && IsV4(a) && a.text == r.ip4.value)
      && (r.ip6.Some? ==> exists a :: a in addrs && IsGlobalV6(a) && a.text == r.ip6.value)
  {
    var r := Scan(addrs);
    ScanStopsAtFirstPair(addrs);
    var prefix := addrs[..r.scanned];
    LastV4Sound(prefix);
    LastGlobalV6Sound(prefix);
    if r.pair.ip4.Some? {
      var j :| 0 <= j < |prefix| && IsV4(prefix[j]) && prefix[j].text == r.pair.ip4.value;
      assert prefix[j] in addrs;
    }
    if r.pair.ip6.Some? {
      var j :| 0 <= j < |prefix| && IsGlobalV6(prefix[j]) && prefix[j].text == r.pair.ip6.value;
      assert prefix[j] in addrs;
    }
  }
}
