# proxmox-k8s: MAC address generation and cloud-init templating

This project is a Dafny model of the two pieces of logic in the Pulumi program
`proxmox-k8s/main.go` that compute something rather than call the Proxmox provider.

- `generateRandomMAC` takes six random bytes. It forces the first octet to be a
  locally administered unicast address: bit 0x02 set, bit 0x01 cleared. It then prints
  the address as six lower-case, two-digit hex octets joined by `:`.
- `readAndReplaceCloudInitConfig` reads the shared cloud-init template. Its replacement
  entries are applied in order, and each entry replaces every `${key}` with its value
  using `strings.ReplaceAll`. The rendered text is returned only if it still parses as
  YAML.

Modules:

- `Results` holds the Go `(value, error)` pair as a `Result`, plus the error kinds.
- `StringReplace` models `strings.Index` and `strings.ReplaceAll` as leftmost,
  non-overlapping replacement, with the lemmas the renderer relies on.
- `MacAddress` covers the octet masking, `%02x` printing with its parser, and the
  round trip between them. `GenerateRandomMac` updates the six-byte buffer in place, as
  the source does.
- `CloudInit` has the replacement loop as a method. It is proved against the function
  `ApplyReplacements`, and the lemmas about that function state what the rendering
  guarantees and what it does not.
- `Cluster` covers the three calls in `main`. It proves that none of the nodes'
  rendered templates keeps a `${mac_address}` or `${hostname}` placeholder, and that
  wherever the template held one, the rendered text holds the address or host name.

## Model

| member | source | states |
|---|---|---|
| MacAddress.LocallyAdministeredUnicast | proxmox-k8s/main.go:93 | the result has the locally administered bit (0x02) set and the multicast bit (0x01) clear; bits 2-7 of the input are kept; a byte that already has bits 0-1 equal to `10` is returned unchanged |
| MacAddress.AddressFrom | proxmox-k8s/main.go:89-93 | the address has six octets; only the two low bits of the first octet differ from the random bytes (0x02 set, 0x01 clear); octets 1-5 are the random bytes |
| MacAddress.FormatOctet | proxmox-k8s/main.go:94 | `%02x` prints a byte as exactly two lower-case hex digits; `ParseFormatOctet` and `ParseOctetCanonical` show the digits are the byte's |
| MacAddress.ParseFormatOctet | proxmox-k8s/main.go:94 | reading back a `%02x`-printed octet gives the octet |
| MacAddress.ParseOctetCanonical | proxmox-k8s/main.go:94 | only the canonical two-digit lower-case text of an octet reads back as that octet, so `%02x` is injective |
| MacAddress.JoinOctets | proxmox-k8s/main.go:94 | joining n printed octets with `:` gives 3n-1 characters; `JoinOctetsLayout` places each group and `ParseJoinOctets`/`JoinParseOctets` give the round trip |
| MacAddress.JoinOctetsLayout | proxmox-k8s/main.go:94 | octet k of the joined text sits at positions 3k..3k+1 and is followed by `:`, except the last octet, which ends the text |
| MacAddress.ParseJoinOctets | proxmox-k8s/main.go:94 | parsing the colon-joined octets gives back the octets |
| MacAddress.JoinParseOctets | proxmox-k8s/main.go:94 | any text that parses as colon-joined octets is exactly their canonical joined form |
| MacAddress.FormatMac | proxmox-k8s/main.go:94 | the printed address is 17 characters long; each of the first five octets appears as two hex digits followed by `:`, and the sixth ends the text |
| MacAddress.ParseFormatMac | proxmox-k8s/main.go:94 | parsing a printed six-octet address gives back the octets |
| MacAddress.FormatParseMac | proxmox-k8s/main.go:94 | a text that parses as an address has six octets, and printing them gives back the text |
| MacAddress.JoinOctetsCharacters | proxmox-k8s/main.go:94 | a printed address holds only lower-case hex digits and `:` |
| MacAddress.GenerateRandomMac | proxmox-k8s/main.go:88-95 | a failed random read gives the random-source error; otherwise the result is the printed address of the masked bytes, and it parses back to exactly those six octets |
| StringReplace.IndexOf | proxmox-k8s/main.go:125 | the result is -1 or a position where the pattern occurs; no occurrence lies before it, and there is none at all when it is -1 |
| StringReplace.ReplaceAll | proxmox-k8s/main.go:125 | `strings.ReplaceAll` as leftmost, non-overlapping replacement; what it does is stated by `ReplaceAllNoMatch` and `ReplaceAllLeftmost`, and the lemmas below it |
| StringReplace.ReplaceAllNoMatch | proxmox-k8s/main.go:125 | a text without the pattern is returned unchanged |
| StringReplace.ReplaceAllLeftmost | proxmox-k8s/main.go:125 | at the leftmost occurrence, the text before it is kept, the occurrence becomes the value, and replacement continues on the rest |
| StringReplace.ReplaceAllOfPattern | proxmox-k8s/main.go:125 | a text that is exactly the pattern becomes exactly the value |
| StringReplace.ReplaceSingleOccurrence | proxmox-k8s/main.go:125 | a text whose pattern occurs once, after a prefix without the pattern's first character and before a suffix without the pattern, has just that occurrence replaced |
| StringReplace.ReplaceAllLeavesNo | proxmox-k8s/main.go:125 | if the value cannot form q, no occurrence of q is left: not when q is the pattern (every occurrence is consumed), and not when q was absent before (none is created) |
| StringReplace.ReplaceAllKeepsValue | proxmox-k8s/main.go:125 | if the pattern occurs in the text, the value occurs in the result |
| StringReplace.ReplaceAllKeeps | proxmox-k8s/main.go:125 | a text q that never overlaps an occurrence of the pattern and occurs in the input also occurs in the result |
| StringReplace.CannotFormNeverOverlap | proxmox-k8s/main.go:125 | a value that cannot form the pattern never overlaps an occurrence of it in any text |
| StringReplace.ForeignCharNotContained | proxmox-k8s/main.go:125 | a value holding a character that q lacks cannot occur inside q |
| CloudInit.Token | proxmox-k8s/main.go:125 | the placeholder for a key is three characters longer than the key, starts with `$` and ends with `}` |
| CloudInit.TokensNeverOverlap | proxmox-k8s/main.go:125 | the placeholders of two different keys without `$` or `}` never overlap in any text |
| CloudInit.ApplyReplacements | proxmox-k8s/main.go:123-127 | the ordered replacement loop as a function; described by `ApplyConcat`, `ApplyWithoutTokens`, `ApplyResolvesTokens`, `ApplyKeepsUnsupplied` and `ApplyPair` |
| CloudInit.ApplyPair | proxmox-k8s/main.go:123-127 | two entries are the first entry's `ReplaceAll` followed by the second's on its result |
| CloudInit.ReadAndReplaceCloudInitConfig | proxmox-k8s/main.go:113-136 | an unreadable template gives the read error; otherwise the entries are applied in order, and the result is that text if it parses as YAML and the render error if it does not |
| CloudInit.ApplyConcat | proxmox-k8s/main.go:123-127 | applying two lists one after the other equals applying their concatenation |
| CloudInit.ApplyWithoutTokens | proxmox-k8s/main.go:123-127 | when none of the supplied placeholders occurs in the template, the template is returned unchanged |
| CloudInit.ApplyResolvesTokens | proxmox-k8s/main.go:123-127 | if no value can form its own placeholder or an earlier one, no supplied placeholder remains in the result |
| CloudInit.SingleEntryReplacesOnce | proxmox-k8s/main.go:123-127 | a single entry whose placeholder occurs once, after text without `$` and before text without the placeholder, replaces just that occurrence and keeps the text around it |
| CloudInit.ApplyKeepsUnsupplied | proxmox-k8s/main.go:123-135 | nothing checks for leftovers: a placeholder whose key no entry names stays in the returned text, whatever supplied placeholders the template also holds (all keys free of `$` and `}`) |
| CloudInit.LeftoverPlaceholderKept | proxmox-k8s/main.go:123-135 | a worked instance of `ApplyKeepsUnsupplied`: an unsupplied `${ip}` stays in the rendered text next to the resolved `${hostname}` |
| CloudInit.LaterEntriesSeeEarlierResults | proxmox-k8s/main.go:123-127 | an instance of `ApplyConcat`; entries apply in list order: a value that is itself a placeholder is resolved by a later entry but not by an earlier one |
| Cluster.NodeReplacements | proxmox-k8s/main.go:206-234 | the replacement list each node's render is called with: `mac_address` with its generated address first, then `hostname` with `controller`, `worker1` or `worker2` (the `Hostnames` constant); the `Cluster` lemmas below state what rendering with it gives |
| Cluster.MacCannotFormTokens | proxmox-k8s/main.go:94 | a printed MAC address can never form `${mac_address}` or `${hostname}` |
| Cluster.HostnameCannotFormTokens | proxmox-k8s/main.go:206-234 | none of `controller`, `worker1`, `worker2` can form `${mac_address}` or `${hostname}` |
| Cluster.NodeTemplateResolved | proxmox-k8s/main.go:206-236 | for every template and every generated address, each node's rendered text holds no `${mac_address}` and no `${hostname}` |
| Cluster.NodeTemplateCarriesMac | proxmox-k8s/main.go:206-236 | if the template holds `${mac_address}`, the node's rendered text holds its printed MAC address |
| Cluster.NodeTemplateCarriesHostname | proxmox-k8s/main.go:206-236 | if the template holds `${hostname}`, the node's rendered text holds its host name, for any address and host name |

## Left out

- `initializeProvider`, `downloadCloudImage`, `UploadCloudConfig`, `createVM` and the rest of `main` (proxmox-k8s/main.go:30-86, 97-110, 138-185 and 238-340) are not modelled. They only build Pulumi resources and read environment variables, so there is nothing to compute in them.
- `main` lines 186-236: `Cluster` models only the success path, where the three addresses are generated and the three templates are rendered with them. The early returns when `generateRandomMAC` fails (lines 188-198) or a render fails (lines 213-237) are not modelled, and neither is `os.Getwd` with its error (lines 201-204).
- The files proxmox-container/main.go and main.go are not part of this model. They are separate Pulumi programs with no logic of their own.
- I/O: `rand.Read`, `os.ReadFile`, `os.Getwd` and `filepath.Join` are not modelled. Their outcomes are inputs instead: the random bytes or their absence, and the template text or its absence.
- YAML: `yaml.Unmarshal` into a map is the `parsesAsYaml` parameter. YAML syntax is not modelled.
- Errors: the text of error messages and Go's error wrapping are not modelled. Only the kind of error is kept (random source, template read, template render).
- CloudInit.ReadAndReplaceCloudInitConfig: the source takes a list of maps, and the order of entries inside one Go map is unspecified. The model takes the flattened list of `(key, value)` pairs in the order they are applied. Every call in `main` passes single-entry maps, so the order there is fixed.
- StringReplace.ReplaceAll: requires a non-empty pattern. Go's rule for an empty old string (insert the value around every rune) is not modelled, because the pattern is always `${key}`, which is at least three characters long.
- Strings are sequences of characters, while Go's strings are UTF-8 bytes. Both search byte by byte or character by character from the left, and UTF-8 is self-synchronising, so the replacement works the same way on valid text.
- MacAddress.GenerateRandomMac: the source makes no attempt to avoid collisions between the three generated addresses, and the model makes none either. Distinctness is a matter of probability, not something that can be proved.
