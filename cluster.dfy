/**
 * The three calls of `readAndReplaceCloudInitConfig` in the `main` of
 * proxmox-k8s/main.go: each node's template is rendered with its generated MAC
 * address under `mac_address`, then its host name under `hostname`.
 */
module Cluster {
  import opened StringReplace
  import opened MacAddress
  import opened CloudInit

  /** The host names given to the control plane and the two workers. */
  const Hostnames: seq<string> := ["controller", "worker1", "worker2"]

  /** The replacement list of one node: the MAC address first, then the host name. */
  function NodeReplacements(mac: string, hostname: string): (r: seq<(string, string)>)
  {
    [("mac_address", mac), ("hostname", hostname)]
  }

  /** A printed MAC address cannot form either placeholder: it has no `$` or `}`, and its colons appear in neither. */
  lemma {:induction false} MacCannotFormTokens(m: seq<Byte>, key: string)
    requires |m| == OctetCount
    requires key == "mac_address" || key == "hostname"
    ensures CannotForm(FormatMac(m), Token(key))
  {
    var mac, t := FormatMac(m), Token(key);
    JoinOctetsCharacters(m);
    assert mac[2] == mac[0..3][2] == ':';
    assert ':' !in t;
    ForeignCharNotContained(t, mac, 2);
  }

  /** None of the three host names can form either placeholder. */
  lemma {:induction false} HostnameCannotFormTokens(hostname: string, key: string)
    requires hostname in Hostnames
    requires key == "mac_address" || key == "hostname"
    ensures CannotForm(hostname, Token(key))
  {
    var t := Token(key);
    if hostname == "controller" {
      assert hostname[6] == 'l' && 'l' !in t;
      ForeignCharNotContained(t, hostname, 6);
    } else {
      assert hostname[0] == 'w' && 'w' !in t;
      ForeignCharNotContained(t, hostname, 0);
    }
  }

  /**
   * For every template and every generated address, each node's rendered cloud-init
   * text holds neither a `${mac_address}` nor a `${hostname}` placeholder.
   */
  lemma {:induction false} NodeTemplateResolved(template: string, random: seq<Byte>, hostname: string)
    requires |random| == OctetCount
    requires hostname in Hostnames
    ensures var rendered := ApplyReplacements(template, NodeReplacements(FormatMac(AddressFrom(random)), hostname));
      !Contains(rendered, Token("mac_address")) && !Contains(rendered, Token("hostname"))
  {
    var mac := FormatMac(AddressFrom(random));
    var reps := NodeReplacements(mac, hostname);
    MacCannotFormTokens(AddressFrom(random), "mac_address");
    HostnameCannotFormTokens(hostname, "mac_address");
    HostnameCannotFormTokens(hostname, "hostname");
    forall i, j | 0 <= i <= j < |reps| ensures CannotForm(reps[j].1, Token(reps[i].0)) {
    }
    ApplyResolvesTokens(template, reps);
    assert reps[0].0 == "mac_address" && reps[1].0 == "hostname";
  }

  /**
   * The other half of rendering a node, for the address: wherever the template holds
   * `${mac_address}`, the rendered text holds the printed address. The address
   * survives the later `${hostname}` step because it cannot overlap that placeholder.
   */
  lemma NodeTemplateCarriesMac(template: string, random: seq<Byte>, hostname: string)
    requires |random| == OctetCount
    requires Contains(template, Token("mac_address"))
    ensures var mac := FormatMac(AddressFrom(random));
      Contains(ApplyReplacements(template, NodeReplacements(mac, hostname)), mac)
  {
    var mac := FormatMac(AddressFrom(random));
    var tm, th := Token("mac_address"), Token("hostname");
    ApplyPair(template, ("mac_address", mac), ("hostname", hostname));
    ReplaceAllKeepsValue(template, tm, mac);
    MacCannotFormTokens(AddressFrom(random), "hostname");
    CannotFormNeverOverlap(mac, th);
    ReplaceAllKeeps(ReplaceAll(template, tm, mac), th, hostname, mac);
  }

  /**
   * The other half of rendering a node, for the host name: wherever the template
   * holds `${hostname}`, the rendered text holds the host name. The placeholder
   * survives the earlier `${mac_address}` step because two different placeholders
   * never overlap.
   */
  lemma NodeTemplateCarriesHostname(template: string, mac: string, hostname: string)
    requires Contains(template, Token("hostname"))
    ensures Contains(ApplyReplacements(template, NodeReplacements(mac, hostname)), hostname)
  {
    var tm, th := Token("mac_address"), Token("hostname");
    ApplyPair(template, ("mac_address", mac), ("hostname", hostname));
    TokensNeverOverlap("mac_address", "hostname");
    ReplaceAllKeeps(template, tm, mac, th);
    ReplaceAllKeepsValue(ReplaceAll(template, tm, mac), th, hostname);
  }
}
