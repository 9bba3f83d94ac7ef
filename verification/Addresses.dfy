/** Which address the inventory gives a host: checkIPAddresses and findLudusVM
    (dynamic-inventory/main.go). */
module Addresses {
  import opened Text
  import opened Options

  datatype V4 = V4(a: nat, b: nat, c: nat, d: nat)

  datatype LudusVM = LudusVM(name: string, vlan: int, lastOctet: int, forceIP: bool)

  /** `parse` is net.ParseIP, None for anything but an IPv4 address. */
  type Parser = string -> Option<V4>

  predicate Reachable(ip: V4)
  {
    && ip.a != 127 && !(ip.a == 169 && ip.b == 254)
    && !(ip.a == 172 && 16 <= ip.b < 32)
  }

  predicate OnLudusNetwork(ip: V4)
  {
    ip.a == 192 && ip.b == 0 && ip.c == 2
  }

  predicate Valid(parse: Parser, text: string)
  {
    parse(text).Some? && Reachable(parse(text).value)
  }

  predicate Preferred(parse: Parser, text: string)
  {
    Valid(parse, text) && OnLudusNetwork(parse(text).value)
  }

  function ConfigIP(rangeNumber: string, vm: Option<LudusVM>): string
  {
    if vm.Some? && rangeNumber != "" then
      "10." + rangeNumber + "." + IntText(vm.value.vlan) + "." + IntText(vm.value.lastOctet)
    else ""
  }

  /** The four parts, in order. */
  lemma ConfigIPParts(rangeNumber: string, vm: Option<LudusVM>)
    requires vm.Some? && rangeNumber != "" && '.' !in rangeNumber
    ensures Split(ConfigIP(rangeNumber, vm), '.')
         == ["10", rangeNumber, IntText(vm.value.vlan), IntText(vm.value.lastOctet)]
  {
    var parts := ["10", rangeNumber, IntText(vm.value.vlan), IntText(vm.value.lastOctet)];
    SplitJoin(parts, '.');
    hide IntText, Split;
    JoinOfFour(parts[0], parts[1], parts[2], parts[3]);
    assert parts == [parts[0], parts[1], parts[2], parts[3]] && "10" + "." == "10.";
  }

  /** There is a configured address exactly for a machine of the config of a numbered range. */
  lemma ConfiguredIff(rangeNumber: string, vm: Option<LudusVM>)
    ensures ConfigIP(rangeNumber, vm) != "" <==> vm.Some? && rangeNumber != ""
  {
  }

  lemma JoinOfFour(a: string, b: string, c: string, d: string)
    ensures Join([a, b, c, d], '.') == a + "." + b + "." + c + "." + d
  {
    assert [a, b, c, d][1..] == [b, c, d] && [b, c, d][1..] == [c, d] && [c, d][1..] == [d];
    assert Join([c, d], '.') == c + ['.'] + d;
    assert Join([b, c, d], '.') == b + ['.'] + (c + ['.'] + d);
  }

  /** An address as a 32-bit number. */
  function Number(ip: V4): nat
  {
    ((ip.a * 256 + ip.b) * 256 + ip.c) * 256 + ip.d
  }

  /** The address classes as intervals: reachable is what lies outside 127.0.0.0/8,
      169.254.0.0/16 and 172.16.0.0/12; the Ludus network is 192.0.2.0/24. */
  lemma ClassesIff(ip: V4)
    requires ip.a < 256 && ip.b < 256 && ip.c < 256 && ip.d < 256
    ensures Reachable(ip) <==>
      && !(2130706432 <= Number(ip) < 2147483648)
      && !(2851995648 <= Number(ip) < 2852061184)
      && !(2886729728 <= Number(ip) < 2887778304)
    ensures OnLudusNetwork(ip) <==> 3221225984 <= Number(ip) < 3221226240
  {
  }

  /** The first text of the list that satisfies a predicate. */
  ghost predicate IsFirst(texts: seq<string>, r: string, good: string -> bool)
  {
    exists i :: 0 <= i < |texts| && texts[i] == r && good(r) && forall j :: 0 <= j < i ==> !good(texts[j])
  }

  ghost predicate HasGood(texts: seq<string>, good: string -> bool)
  {
    exists i :: 0 <= i < |texts| && good(texts[i])
  }

  function ValidOnes(parse: Parser, texts: seq<string>): seq<string>
  {
    if texts == [] then []
    else
      var last := texts[|texts| - 1];
      ValidOnes(parse, texts[..|texts| - 1]) + (if Valid(parse, last) then [last] else [])
  }

  method FindLudusVM(vms: seq<LudusVM>, rangeID: string, resolve: string -> string, vmName: string)
    returns (vm: Option<LudusVM>)
    ensures vm.Some? <==> rangeID != "" && exists i :: 0 <= i < |vms| && resolve(vms[i].name) == vmName
    ensures vm.Some? ==>
      exists i :: 0 <= i < |vms| && vms[i] == vm.value && resolve(vms[i].name) == vmName
        && forall j :: 0 <= j < i ==> resolve(vms[j].name) != vmName
  {
    if rangeID == "" {
      return None;
    }
    for i := 0 to |vms|
      invariant forall j :: 0 <= j < i ==> resolve(vms[j].name) != vmName
    {
      if resolve(vms[i].name) == vmName {
        return Some(vms[i]);
      }
    }
    return None;
  }

  /** The configured address if the machine reports it; else the first valid one
      on the Ludus network; else the first valid one; else the configured one if forced. */
  method CheckIPAddresses(parse: Parser, rangeNumber: string, vm: Option<LudusVM>, addresses: seq<string>)
    returns (r: string)
    ensures var configIP := ConfigIP(rangeNumber, vm);
      if configIP in addresses && parse(configIP).Some? then r == configIP
      else if HasGood(addresses, s => Preferred(parse, s)) then IsFirst(addresses, r, s => Preferred(parse, s))
      else if HasGood(addresses, s => Valid(parse, s)) then IsFirst(addresses, r, s => Valid(parse, s))
      else r == if vm.Some? && vm.value.forceIP then configIP else ""
  {
    var configIP, forceIP := "", false;
    if vm.Some? && rangeNumber != "" {
      configIP := ConfigIP(rangeNumber, vm);
      forceIP := vm.value.forceIP;
    }
    assert configIP == ConfigIP(rangeNumber, vm) && (!forceIP ==> configIP == "" || !vm.value.forceIP);
    hide ConfigIP, Preferred;
    var validIPs: seq<string> := [];
    for i := 0 to |addresses|
      invariant validIPs == ValidOnes(parse, addresses[..i])
      invariant forall j :: 0 <= j < i && addresses[j] == configIP ==> parse(configIP).None?
    {
      hide Reachable;
      assert addresses[..i + 1][..i] == addresses[..i];
      var ip := parse(addresses[i]);
      if ip.None? {
        continue;
      }
      if addresses[i] == configIP {
        return configIP;
      }
      if Reachable(ip.value) {
        validIPs := validIPs + [addresses[i]];
      }
    }
    assert addresses[..|addresses|] == addresses;
    hide Valid, OnLudusNetwork, ValidOnes;
    ValidFirst(parse, addresses);
    for i := 0 to |validIPs|
      invariant forall j :: 0 <= j < i ==> !Preferred(parse, validIPs[j])
    {
      ValidAt(parse, addresses, i);
      if OnLudusNetwork(parse(validIPs[i]).value) {
        PreferredFirst(parse, addresses, i);
        return validIPs[i];
      }
    }
    NonePreferred(parse, addresses);
    if |validIPs| > 0 {
      return validIPs[0];
    }
    if forceIP && configIP != "" {
      return configIP;
    }
    return "";
  }

  lemma {:induction false} ValidAt(parse: Parser, texts: seq<string>, k: nat)
    requires k < |ValidOnes(parse, texts)|
    ensures Valid(parse, ValidOnes(parse, texts)[k]) && parse(ValidOnes(parse, texts)[k]).Some?
  {
    var front := ValidOnes(parse, texts[..|texts| - 1]);
    if k < |front| {
      ValidAt(parse, texts[..|texts| - 1], k);
    }
  }

  lemma {:induction false} ValidMember(parse: Parser, texts: seq<string>, s: string)
    ensures s in ValidOnes(parse, texts) <==> s in texts && Valid(parse, s)
  {
    hide Valid;
    if texts != [] {
      ValidMember(parse, texts[..|texts| - 1], s);
      assert texts == texts[..|texts| - 1] + [texts[|texts| - 1]];
    }
  }

  lemma FirstExtends(texts: seq<string>, s: string, r: string, good: string -> bool)
    requires IsFirst(texts, r, good)
    ensures IsFirst(texts + [s], r, good)
  {
    var i :| 0 <= i < |texts| && texts[i] == r && good(r) && forall j :: 0 <= j < i ==> !good(texts[j]);
    assert (texts + [s])[i] == r;
  }

  lemma FirstAtEnd(texts: seq<string>, s: string, good: string -> bool)
    requires good(s) && !HasGood(texts, good)
    ensures IsFirst(texts + [s], s, good)
  {
    assert (texts + [s])[|texts|] == s;
  }

  /** The first valid address heads the list of valid ones. */
  lemma {:induction false} ValidFirst(parse: Parser, texts: seq<string>)
    ensures HasGood(texts, s => Valid(parse, s)) <==> ValidOnes(parse, texts) != []
    ensures ValidOnes(parse, texts) != [] ==> IsFirst(texts, ValidOnes(parse, texts)[0], s => Valid(parse, s))
  {
    hide Valid;
    if texts != [] {
      var front, last := texts[..|texts| - 1], texts[|texts| - 1];
      ValidFirst(parse, front);
      assert texts == front + [last];
      if ValidOnes(parse, front) != [] {
        FirstExtends(front, last, ValidOnes(parse, front)[0], s => Valid(parse, s));
      } else if Valid(parse, last) {
        FirstAtEnd(front, last, s => Valid(parse, s));
      }
    }
  }

  /** The first preferred address among the valid ones is the first of all. */
  lemma {:induction false} PreferredFirst(parse: Parser, texts: seq<string>, k: nat)
    requires k < |ValidOnes(parse, texts)| && Preferred(parse, ValidOnes(parse, texts)[k])
    requires forall j :: 0 <= j < k ==> !Preferred(parse, ValidOnes(parse, texts)[j])
    ensures IsFirst(texts, ValidOnes(parse, texts)[k], s => Preferred(parse, s))
    ensures HasGood(texts, s => Preferred(parse, s))
  {
    var front, last := texts[..|texts| - 1], texts[|texts| - 1];
    assert texts == front + [last];
    var before := ValidOnes(parse, front);
    assert forall j :: 0 <= j < |before| ==> ValidOnes(parse, texts)[j] == before[j];
    if k < |before| {
      PreferredFirst(parse, front, k);
      FirstExtends(front, last, before[k], s => Preferred(parse, s));
    } else {
      forall i | 0 <= i < |front| ensures !Preferred(parse, front[i]) {
        ValidMember(parse, front, front[i]);
        if front[i] in before {
          var j :| 0 <= j < |before| && before[j] == front[i];
          assert !Preferred(parse, ValidOnes(parse, texts)[j]);
        }
      }
      FirstAtEnd(front, last, s => Preferred(parse, s));
    }
  }

  lemma NonePreferred(parse: Parser, texts: seq<string>)
    requires forall s :: s in ValidOnes(parse, texts) ==> !Preferred(parse, s)
    ensures !HasGood(texts, s => Preferred(parse, s))
  {
    forall i | 0 <= i < |texts| ensures !Preferred(parse, texts[i]) {
      ValidMember(parse, texts, texts[i]);
    }
  }
}
