/**
 The links of a Release body: each leads to the anchor that the page of an upgrade
 guide gives to the heading of that version's section.
 */
module ReleaseLinks {
  import opened ReleaseBody
  import opened Strings
  import opened UpgradeGuide

  /** What a character of a heading becomes in its anchor: lower case, a dash for a space, or nothing. */
  function SlugChar(c: char): string {
    if 'A' <= c <= 'Z' then [c - 'A' + 'a']
    else if 'a' <= c <= 'z' || '0' <= c <= '9' || c == '-' then [c]
    else if c == ' ' then "-"
    else ""
  }

  function Slug(heading: string): string {
    if heading == "" then "" else SlugChar(heading[0]) + Slug(heading[1..])
  }

  lemma {:induction false} SlugSplits(a: string, b: string)
    ensures Slug(a + b) == Slug(a) + Slug(b)
  {
    if a == "" {
      assert a + b == b;
    } else {
      assert (a + b)[1..] == a[1..] + b;
      SlugSplits(a[1..], b);
    }
  }

  lemma {:induction false} SlugOfDigits(digits: string)
    requires forall i :: 0 <= i < |digits| ==> '0' <= digits[i] <= '9' || digits[i] == '.'
    ensures Slug(digits) == WithoutDots(digits)
  {
    if digits != "" {
      SlugOfDigits(digits[1..]);
    }
  }

  lemma {:induction false} SlugOfSmall(word: string)
    requires forall i :: 0 <= i < |word| ==> 'a' <= word[i] <= 'z'
    ensures Slug(word) == word
  {
    if word != "" {
      SlugOfSmall(word[1..]);
      assert word == [word[0]] + word[1..];
    }
  }

  lemma SlugOfOne(c: char)
    ensures Slug([c]) == SlugChar(c)
  {
    assert [c][1..] == "";
  }

  lemma SlugOfWords(a: string, b: string)
    ensures Slug(a + (" " + b)) == Slug(a) + ("-" + Slug(b))
  {
    SlugOfOne(' ');
    SlugSplits(" ", b);
    SlugSplits(a, " " + b);
  }

  lemma SlugOfUpgrading()
    ensures Slug("U" + "pgrading") == "u" + "pgrading"
  {
    SlugOfOne('U');
    SlugOfSmall("pgrading");
    hide Slug;
    SlugSplits("U", "pgrading");
  }

  lemma SlugOfHeading()
    ensures Slug("U" + "pgrading" + (" " + ("to" + (" " + "v")))) == "u" + "pgrading" + ("-" + ("to" + ("-" + "v")))
  {
    SlugOfUpgrading();
    SlugOfSmall("to");
    SlugOfSmall("v");
    hide Slug;
    SlugOfWords("to", "v");
    SlugOfWords("U" + "pgrading", "to" + (" " + "v"));
  }

  lemma HeadingText()
    ensures EXACT == "U" + "pgrading" + (" " + ("to" + (" " + "v")))
  {
  }

  lemma AnchorText()
    ensures "#upgrading-to-v" == "#" + ("u" + "pgrading" + ("-" + ("to" + ("-" + "v"))))
  {
  }

  lemma SlugOfTitle(version: string)
    requires IsRelease(version)
    ensures Slug(EXACT + version) == Slug(EXACT) + WithoutDots(version)
  {
    ReleaseChars(version);
    hide *;
    hide EXACT;
    assert forall i :: 0 <= i < |version| ==> version[i] in version;
    SlugSplits(EXACT, version);
    SlugOfDigits(version);
  }

  lemma SlugOfExact()
    ensures "#upgrading-to-v" == "#" + Slug(EXACT)
  {
    HeadingText();
    SlugOfHeading();
    hide *;
    AnchorText();
  }

  /** The link of a path leads to the heading of the version's section in the file at the version's tag. */
  lemma LinkIsAnchor(version: string, path: string)
    requires IsRelease(version)
    ensures GuideLink(version, path)
         == REPOSITORY + "/blob/v" + version + "/" + path + ("#" + Slug(EXACT + version))
  {
    SlugOfTitle(version);
    SlugOfExact();
    LinkText(version, path);
    hide *;
    var front, slug, digits := REPOSITORY + "/blob/v" + version + "/" + path, Slug(EXACT), WithoutDots(version);
    Regroup(front, "#", slug, digits);
  }

  lemma LinkText(version: string, path: string)
    ensures GuideLink(version, path)
         == REPOSITORY + "/blob/v" + version + "/" + path + "#upgrading-to-v" + WithoutDots(version)
  {
  }

  lemma Regroup(a: string, b: string, c: string, d: string)
    ensures a + (b + c) + d == a + (b + (c + d))
  {
  }

  /** A link's anchor is the version's digits run together. */
  lemma AnchorOf(major: string, minor: string, patch: string)
    requires IsDigits(major) && IsDigits(minor) && IsDigits(patch)
    ensures WithoutDots(major + ("." + (minor + ("." + patch)))) == major + (minor + patch)
  {
    PartDropped(minor, patch, patch + "");
    PartDropped(major, minor + ("." + patch), minor + patch);
  }

  lemma PartDropped(digits: string, rest: string, dropped: string)
    requires IsDigits(digits) && (WithoutDots(rest) == dropped || (IsDigits(rest) && rest == dropped))
    ensures WithoutDots(digits + ("." + rest)) == digits + dropped
  {
    DotsDropped(digits, "." + rest);
    DotGone(rest);
    if IsDigits(rest) && rest == dropped {
      DotsDropped(rest, "");
      assert rest + "" == rest;
    }
  }

  lemma DotGone(rest: string)
    ensures WithoutDots("." + rest) == WithoutDots(rest)
    ensures WithoutDots("") == ""
  {
    assert ("." + rest)[1..] == rest;
  }

  lemma {:induction false} DotsDropped(digits: string, rest: string)
    requires '.' !in digits
    ensures WithoutDots(digits + rest) == digits + WithoutDots(rest)
  {
    if digits == "" {
      assert digits + rest == rest;
    } else {
      assert digits[0] in digits && (digits + rest)[1..] == digits[1..] + rest;
      DotsDropped(digits[1..], rest);
      assert digits == [digits[0]] + digits[1..];
    }
  }
}
