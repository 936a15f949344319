/**
 * `readAndReplaceCloudInitConfig` of proxmox-k8s/main.go: read the shared cloud-init
 * template, replace every `${key}` by its value one entry after the other, and hand
 * the text back only when it still parses as YAML.
 */
module CloudInit {
  import opened Results
  import opened StringReplace

  /** The placeholder written for `key` in the template: `"${" + key + "}"`. */
  function Token(key: string): (t: string)
    ensures |t| == |key| + 3 && t[0] == '$' && t[|t| - 1] == '}'
  {
    "${" + key + "}"
  }

  /**
   * Placeholders of two different keys, neither holding `$` or `}`, never overlap: each
   * starts with the only `$` and ends with the only `}` it holds.
   */
  lemma TokensNeverOverlap(k1: string, k2: string)
    requires k1 != k2
    requires '$' !in k1 && '}' !in k1 && '$' !in k2 && '}' !in k2
    ensures NeverOverlap(Token(k1), Token(k2))
  {
    var t1, t2 := Token(k1), Token(k2);
    forall t, i, p | OccursAt(t, t1, i) && 0 <= p && i < p + |t2| && p < i + |t1|
      ensures !OccursAt(t, t2, p)
    {
      if p + |t2| <= |t| {
        var w := t[p..p + |t2|];
        if p < i {
          // t1 starts inside the window, but t2 has no `$` after its first character
          OccurrenceChar(t, t1, i, 0);
          assert w[i - p] == t[i] == '$';
          assert t2[i - p] != '$' by {
            if 2 <= i - p < |t2| - 1 {
              assert t2[i - p] == k2[i - p - 2];
            }
          }
        } else if i < p {
          // the window starts inside t1, which has no `$` after its first character
          OccurrenceChar(t, t1, i, p - i);
          assert w[0] == t[p] == t1[p - i];
          assert t1[p - i] != '$' by {
            if 2 <= p - i < |t1| - 1 {
              assert t1[p - i] == k1[p - i - 2];
            }
          }
        } else if |t1| < |t2| {
          // both start together, and t1 closes where t2 still holds a key character
          OccurrenceChar(t, t1, i, |t1| - 1);
          assert w[|t1| - 1] == t[i + |t1| - 1] == '}';
          assert t2[|t1| - 1] == k2[|t1| - 3];
        } else if |t2| < |t1| {
          // both start together, and t2 closes where t1 still holds a key character
          OccurrenceChar(t, t1, i, |t2| - 1);
          assert w[|t2| - 1] == t1[|t2| - 1] == k1[|t2| - 3];
        } else {
          // both start together and have the same length, so the window is t1
          OccurrenceSlice(t, t1, i, 0, |t1|);
          assert w == t1;
          assert t1[2..|t1| - 1] == k1 && t2[2..|t2| - 1] == k2;
        }
      }
    }
  }

  /**
   * The template after the first `|replacements|` entries: each entry replaces every
   * leftmost, non-overlapping occurrence of its token in the text the entries before
   * it left behind.
   */
  function ApplyReplacements(content: string, replacements: seq<(string, string)>): string
    decreases |replacements|
  {
    if replacements == [] then content
    else
      var (key, value) := replacements[|replacements| - 1];
      ReplaceAll(ApplyReplacements(content, replacements[..|replacements| - 1]), Token(key), value)
  }

  /** Two entries: the first entry's replacement, then the second's on its result. */
  lemma ApplyPair(content: string, first: (string, string), second: (string, string))
    ensures ApplyReplacements(content, [first, second])
         == ReplaceAll(ReplaceAll(content, Token(first.0), first.1), Token(second.0), second.1)
  {
    var entries := [first, second];
    assert entries[..1] == [first] && [first][..0] == [];
    assert ApplyReplacements(content, [first]) == ReplaceAll(content, Token(first.0), first.1);
  }

  /**
   * `readAndReplaceCloudInitConfig(path, replacements)`. `template` is what
   * `os.ReadFile` returned (`None` when the file could not be read) and `parsesAsYaml`
   * stands for `yaml.Unmarshal` into a map succeeding.
   */
  method ReadAndReplaceCloudInitConfig(template: Option<string>, replacements: seq<(string, string)>,
                                       parsesAsYaml: string -> bool)
    returns (r: Result<string>)
    ensures template.None? ==> r == Err(TemplateReadError)
    ensures template.Some? && parsesAsYaml(ApplyReplacements(template.value, replacements))
      ==> r == Ok(ApplyReplacements(template.value, replacements))
    ensures template.Some? && !parsesAsYaml(ApplyReplacements(template.value, replacements))
      ==> r == Err(TemplateRenderError)
  {
    if template.None? {
      return Err(TemplateReadError);
    }
    var content := template.value;
    var i := 0;
    while i < |replacements|
      invariant 0 <= i <= |replacements|
      invariant content == ApplyReplacements(template.value, replacements[..i])
    {
      var (key, value) := replacements[i];
      assert replacements[..i + 1][..i] == replacements[..i];
      content := ReplaceAll(content, "${" + key + "}", value);
      i := i + 1;
    }
    assert replacements[..i] == replacements;
    if !parsesAsYaml(content) {
      return Err(TemplateRenderError);
    }
    return Ok(content);
  }

  /** Applying two lists in a row is applying their concatenation: later entries see earlier results. */
  lemma {:induction false} ApplyConcat(content: string, first: seq<(string, string)>, second: seq<(string, string)>)
    ensures ApplyReplacements(content, first + second)
         == ApplyReplacements(ApplyReplacements(content, first), second)
    decreases |second|
  {
    if second == [] {
      assert first + second == first;
    } else {
      var n := |second|;
      assert (first + second)[..|first + second| - 1] == first + second[..n - 1];
      assert (first + second)[|first + second| - 1] == second[n - 1];
      ApplyConcat(content, first, second[..n - 1]);
    }
  }

  /**
   * A template holding none of the supplied tokens comes back unchanged, whatever
   * other `${...}` placeholders it holds.
   */
  lemma {:induction false} ApplyWithoutTokens(content: string, replacements: seq<(string, string)>)
    requires forall i :: 0 <= i < |replacements| ==> !Contains(content, Token(replacements[i].0))
    ensures ApplyReplacements(content, replacements) == content
    decreases |replacements|
  {
    if replacements != [] {
      var n := |replacements|;
      ApplyWithoutTokens(content, replacements[..n - 1]);
      ReplaceAllNoMatch(content, Token(replacements[n - 1].0), replacements[n - 1].1);
    }
  }

  /**
   * Every supplied token is gone from the result when no value can form any token
   * applied before or with it.
   */
  lemma {:induction false} ApplyResolvesTokens(content: string, replacements: seq<(string, string)>)
    requires forall i, j :: 0 <= i <= j < |replacements| ==>
      CannotForm(replacements[j].1, Token(replacements[i].0))
    ensures forall i :: 0 <= i < |replacements| ==>
      !Contains(ApplyReplacements(content, replacements), Token(replacements[i].0))
    decreases |replacements|
  {
    if replacements != [] {
      var n := |replacements|;
      var init := replacements[..n - 1];
      var (key, value) := replacements[n - 1];
      var before := ApplyReplacements(content, init);
      ApplyResolvesTokens(content, init);
      forall i | 0 <= i < n ensures !Contains(ReplaceAll(before, Token(key), value), Token(replacements[i].0)) {
        if i < n - 1 {
          assert init[i] == replacements[i];
        }
        ReplaceAllLeavesNo(before, Token(key), value, Token(replacements[i].0));
      }
    }
  }

  /**
   * A single entry whose token occurs once, after text without a `$` and before text
   * without the token, replaces exactly that occurrence and keeps the text around it.
   */
  lemma SingleEntryReplacesOnce(a: string, key: string, b: string, value: string)
    requires '$' !in a && !Contains(b, Token(key))
    ensures ApplyReplacements(a + Token(key) + b, [(key, value)]) == a + value + b
  {
    var t := Token(key);
    assert t[0] !in a;
    ReplaceSingleOccurrence(a, t, b, value);
    assert [(key, value)][..0] == [];
  }

  /**
   * There is no check for placeholders left unresolved: a placeholder whose key no
   * entry names survives every entry, whatever supplied placeholders the template
   * also holds, as long as all keys are free of `$` and `}`.
   */
  lemma {:induction false} ApplyKeepsUnsupplied(content: string, replacements: seq<(string, string)>, k: string)
    requires '$' !in k && '}' !in k
    requires forall i :: 0 <= i < |replacements| ==>
      replacements[i].0 != k && '$' !in replacements[i].0 && '}' !in replacements[i].0
    requires Contains(content, Token(k))
    ensures Contains(ApplyReplacements(content, replacements), Token(k))
    decreases |replacements|
  {
    if replacements != [] {
      var n := |replacements|;
      var init := replacements[..n - 1];
      var (key, value) := replacements[n - 1];
      forall i | 0 <= i < |init|
        ensures init[i].0 != k && '$' !in init[i].0 && '}' !in init[i].0
      {
        assert init[i] == replacements[i];
      }
      ApplyKeepsUnsupplied(content, init, k);
      TokensNeverOverlap(key, k);
      ReplaceAllKeeps(ApplyReplacements(content, init), Token(key), value, Token(k));
    }
  }

  /**
   * A worked instance of `ApplyKeepsUnsupplied`: a `${ip}` that no entry supplies
   * survives into the rendered text next to the resolved `${hostname}`.
   */
  lemma LeftoverPlaceholderKept()
    ensures ApplyReplacements("host: " + Token("hostname") + "\nip: " + Token("ip"), [("hostname", "worker1")])
         == "host: " + "worker1" + "\nip: " + Token("ip")
  {
    var tail := "\nip: " + Token("ip");
    assert |tail| < |Token("hostname")|;
    SingleEntryReplacesOnce("host: ", "hostname", tail, "worker1");
    ConcatAssociative("host: " + Token("hostname"), "\nip: ", Token("ip"));
    ConcatAssociative("host: " + "worker1", "\nip: ", Token("ip"));
  }

  /**
   * Entries apply in list order and each sees the text the earlier ones produced: a
   * value that is itself a placeholder is resolved by a later entry, not by an
   * earlier one. This is one instance of `ApplyConcat`, which states the general fact
   * that each entry works on the text all earlier entries produced.
   */
  lemma LaterEntriesSeeEarlierResults()
    ensures ApplyReplacements(Token("a"), [("a", Token("b")), ("b", "x")]) == "x"
    ensures ApplyReplacements(Token("a"), [("b", "x"), ("a", Token("b"))]) == Token("b")
  {
    var ta, tb := Token("a"), Token("b");
    ReplaceAllOfPattern(ta, tb);
    ReplaceAllOfPattern(tb, "x");
    assert ta[2] != tb[2];
    assert !OccursAt(ta, tb, 0);
    ReplaceAllNoMatch(ta, tb, "x");
    var first := [("a", tb), ("b", "x")];
    assert first[..1] == [("a", tb)] && first[..1][..0] == [];
    var second := [("b", "x"), ("a", tb)];
    assert second[..1] == [("b", "x")] && second[..1][..0] == [];
  }
}
