/**
 The names in a manifest: what the schema's patterns admit, and the composite versions of site/manifest/changelog.ts
 taken apart again.
 */
module ManifestNames {
  import opened Wrappers
  import opened ReleaseManifest
  import opened ManifestGenerate

  // So many characters in a row.
  function Row(first: char, count: nat): (row: string)
    requires first as int + count <= 0xD800
  {
    seq(count, i requires 0 <= i < count => (first as int + i) as char)
  }

  const LOWER := Row('a', 26) + Row('0', 10)
  const UPPER := Row('A', 26)

  lemma AlphanumericsAreTheLetters(c: char, upper: bool)
    ensures IsAlphanumeric(c, upper) <==> c in LOWER || (upper && c in UPPER)
  {
    CharactersInARow(c, 'a', 26);
    CharactersInARow(c, '0', 10);
    CharactersInARow(c, 'A', 26);
  }

  lemma CharactersInARow(c: char, first: char, count: nat)
    requires first as int + count <= 0xD800
    ensures c in Row(first, count) <==> first as int <= c as int < first as int + count
  {
    if first as int <= c as int < first as int + count {
      assert Row(first, count)[c as int - first as int] == c;
    }
  }

  predicate AllOf(s: string, upper: bool, more: string) {
    forall c | c in s :: c in LOWER || (upper && c in UPPER) || c in more
  }

  // A letter or digit, or two of them around a middle of those and more.
  ghost predicate Matches(s: string, upper: bool, more: string) {
    || (|s| == 1 && AllOf(s, upper, ""))
    || exists first, middle: string, last ::
         s == [first] + middle + [last] && AllOf([first, last], upper, "") && AllOf(middle, upper, more)
  }

  lemma MatchesByEnds(s: string, upper: bool, more: string)
    ensures Matches(s, upper, more) <==>
            && s != [] && AllOf([s[0]], upper, "") && AllOf([s[|s| - 1]], upper, "") && AllOf(s, upper, more)
  {
    if first, middle: string, last :|
         s == [first] + middle + [last] && AllOf([first, last], upper, "") && AllOf(middle, upper, more)
    {
      assert first in [first, last] && last in [first, last] && s[0] == first && s[|s| - 1] == last;
      forall c | c in s ensures c in LOWER || (upper && c in UPPER) || c in more {
        assert c == first || c == last || c in middle;
      }
    }
    if |s| > 1 && AllOf([s[0]], upper, "") && AllOf([s[|s| - 1]], upper, "") && AllOf(s, upper, more) {
      var first, middle, last := s[0], s[1..|s| - 1], s[|s| - 1];
      assert s == [first] + middle + [last];
      assert first in [s[0]] && last in [s[|s| - 1]] && forall c | c in middle :: c in s;
      assert AllOf([first, last], upper, "") && AllOf(middle, upper, more);
    }
    if |s| == 1 && AllOf(s, upper, "") {
      assert s == [s[0]];
    }
    if |s| == 1 && AllOf([s[0]], upper, "") {
      assert s == [s[0]];
    }
  }

  // The pattern of the slugs, ^[a-z0-9](?:[a-z0-9-]*[a-z0-9])?$, up to 64 characters.
  lemma SlugsMatchThePattern(s: string)
    ensures IsSlug(s) <==> |s| <= 64 && Matches(s, false, "-")
  {
    MatchesByEnds(s, false, "-");
    forall c ensures IsAlphanumeric(c, false) <==> c in LOWER {
      AlphanumericsAreTheLetters(c, false);
    }
  }

  // The pattern of the versions, ^[A-Za-z0-9](?:[A-Za-z0-9.+\\-]*[A-Za-z0-9])?$, up to 100 characters.
  lemma VersionsMatchThePattern(s: string)
    ensures IsVersion(s) <==> |s| <= 100 && Matches(s, true, ".+-")
  {
    MatchesByEnds(s, true, ".+-");
    forall c ensures IsAlphanumeric(c, true) <==> c in LOWER || c in UPPER {
      AlphanumericsAreTheLetters(c, true);
    }
  }

  // ----- composite versions

  predicate IsPart(s: string) {
    s != [] && AllOf(s, true, ".-")
  }

  const GLUE := "+image."

  // Splits at the only plus sign there is: neither part can hold one.
  function ParseVersion(composite: string): (parts: Option<(string, string)>)
    decreases |composite|
  {
    ParsedFrom(composite, 0)
  }

  function ParsedFrom(composite: string, i: nat): (parts: Option<(string, string)>)
    requires i <= |composite|
    decreases |composite| - i
  {
    if i == |composite| then None
    else if composite[i] != '+' then ParsedFrom(composite, i + 1)
    else if GLUE <= composite[i..] && IsPart(composite[..i]) && IsPart(composite[i + |GLUE|..]) then
      Some((composite[..i], composite[i + |GLUE|..]))
    else None
  }

  lemma {:induction false} ParsedAtTheFirstPlus(composite: string, i: nat, k: nat)
    requires i <= k < |composite| && composite[k] == '+' && forall j | i <= j < k :: composite[j] != '+'
    ensures ParsedFrom(composite, i) == ParsedFrom(composite, k)
    decreases k - i
  {
    if i < k {
      ParsedAtTheFirstPlus(composite, i + 1, k);
    }
  }

  // A composite version names its components: it is taken apart into the two it was made of.
  lemma ParsingInvertsComposing(bundle: Bundle)
    requires IsPart(bundle.daemonVersion) && IsPart(bundle.imageVersion)
    ensures ParseVersion(VersionOf(bundle)) == Some((bundle.daemonVersion, bundle.imageVersion))
  {
    var daemon, image := bundle.daemonVersion, bundle.imageVersion;
    var composite := daemon + GLUE + image;
    var k := |daemon|;
    assert composite[..k] == daemon && composite[k + |GLUE|..] == image && composite[k..] == GLUE + image;
    assert GLUE[0] == '+' && composite[k] == '+';
    forall j | 0 <= j < k ensures composite[j] != '+' {
      assert composite[j] == daemon[j] && daemon[j] in daemon;
      NoPlusInAPart(daemon[j]);
    }
    ParsedAtTheFirstPlus(composite, 0, k);
  }

  lemma NoPlusInAPart(c: char)
    requires c in LOWER || c in UPPER || c in ".-"
    ensures c != '+'
  {
    AlphanumericsAreTheLetters(c, true);
  }

  // What can be taken apart is put together again.
  lemma ComposingInvertsParsing(bundle: Bundle, composite: string)
    requires ParseVersion(composite) == Some((bundle.daemonVersion, bundle.imageVersion))
    ensures VersionOf(bundle) == composite && IsPart(bundle.daemonVersion) && IsPart(bundle.imageVersion)
  {
    ParsedIsASplit(composite, 0);
  }

  lemma {:induction false} ParsedIsASplit(composite: string, i: nat)
    requires i <= |composite|
    ensures match ParsedFrom(composite, i)
            case None => true
            case Some(parts) => composite == parts.0 + GLUE + parts.1 && IsPart(parts.0) && IsPart(parts.1)
    decreases |composite| - i
  {
    if i < |composite| {
      if composite[i] != '+' {
        ParsedIsASplit(composite, i + 1);
      } else if GLUE <= composite[i..] && IsPart(composite[..i]) && IsPart(composite[i + |GLUE|..]) {
        assert composite == composite[..i] + composite[i..] && composite[i..] == GLUE + composite[i..][|GLUE|..];
      }
    }
  }

  // So bundles of different components never share a version.
  lemma ComponentsTellVersionsApart(a: Bundle, b: Bundle)
    requires IsPart(a.daemonVersion) && IsPart(a.imageVersion) && IsPart(b.daemonVersion) && IsPart(b.imageVersion)
    ensures VersionOf(a) == VersionOf(b) <==> a.daemonVersion == b.daemonVersion && a.imageVersion == b.imageVersion
  {
    ParsingInvertsComposing(a);
    ParsingInvertsComposing(b);
  }
}
