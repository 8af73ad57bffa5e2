/**
 * `emoji.find(...)`: the first record of the table that matches the key
 * or the decoded text by one of four rules.
 */
module Matcher {
  import opened Wrappers
  import Text
  import Dataset

  const SELECTOR: string := "-fe0f"

  /** `code.replace(/-fe0f$/g, "")`: the anchored pattern removes one trailing `-fe0f` at most. */
  function StripSelector(code: string): (r: string)
    ensures Text.EndsWith(code, SELECTOR) ==> r + SELECTOR == code
    ensures !Text.EndsWith(code, SELECTOR) ==> r == code
  {
    if Text.EndsWith(code, SELECTOR) then code[..|code| - |SELECTOR|] else code
  }

  /** `name.toLowerCase().replace(/ /g, "-")`. */
  function Slug(name: string): string
  {
    Text.ReplaceAll(Text.Lower(name), ' ', '-')
  }

  /** A slug keeps the name's length and holds no space and no ASCII capital. */
  lemma SlugShape(name: string)
    ensures |Slug(name)| == |name|
    ensures forall i :: 0 <= i < |Slug(name)| ==> Slug(name)[i] != ' '
    ensures Text.NoUpper(Slug(name))
  {
    var l := Text.Lower(name);
    Text.LowerIsLower(name);
    Text.ReplaceAllRemoves(l, ' ', '-');
    forall i | 0 <= i < |Slug(name)| ensures !('A' <= Slug(name)[i] <= 'Z') {
      assert !('A' <= l[i] <= 'Z');
    }
  }

  /** The predicate passed to `find`: any one of the four rules. */
  predicate Matches(e: Dataset.Emoji, code: string, text: string)
  {
    var u := Text.Lower(e.unified);
    var k := Text.Lower(code);
    || u == k
    || u == StripSelector(k)
    || u == k + SELECTOR
    || Slug(e.name) == Text.Lower(text)
  }

  /**
   * The index of the first record that matches, or `None` when none does.
   */
  function Find(emoji: seq<Dataset.Emoji>, code: string, text: string): (r: Option<nat>)
    ensures r.Some? ==> r.value < |emoji| && Matches(emoji[r.value], code, text)
    ensures r.Some? ==> forall k :: 0 <= k < r.value ==> !Matches(emoji[k], code, text)
    ensures r.None? <==> forall k :: 0 <= k < |emoji| ==> !Matches(emoji[k], code, text)
  {
    if emoji == [] then None
    else if Matches(emoji[0], code, text) then Some(0)
    else
      match Find(emoji[1..], code, text)
      case None => None
      case Some(i) => Some(i + 1)
  }

  /** A record that matches is found, at its own index or at an earlier one. */
  lemma FindNoLater(emoji: seq<Dataset.Emoji>, code: string, text: string, i: nat)
    requires i < |emoji| && Matches(emoji[i], code, text)
    ensures Find(emoji, code, text).Some? && Find(emoji, code, text).value <= i
  {
  }

  /** The first matching record is the one found. */
  lemma FindFirst(emoji: seq<Dataset.Emoji>, code: string, text: string, i: nat)
    requires i < |emoji| && Matches(emoji[i], code, text)
    requires forall k :: 0 <= k < i ==> !Matches(emoji[k], code, text)
    ensures Find(emoji, code, text) == Some(i)
  {
  }

  /** Rule 3: a record stored with the selector is matched by a key without it. */
  lemma MatchesSelectorAppended(e: Dataset.Emoji, code: string, text: string)
    requires Text.Lower(e.unified) == Text.Lower(code) + SELECTOR
    ensures Matches(e, code, text)
  {
  }

  /** Rule 2: a record stored without the selector is matched by a key with it. */
  lemma MatchesSelectorStripped(e: Dataset.Emoji, code: string, text: string)
    requires Text.Lower(e.unified) + SELECTOR == Text.Lower(code)
    ensures Matches(e, code, text)
  {
    assert Text.EndsWith(Text.Lower(code), SELECTOR);
  }

  /** Stripping removes exactly one trailing selector, not all of them. */
  lemma StripSelectorOnce(k: string)
    ensures StripSelector(k + SELECTOR) == k
    ensures StripSelector(k + SELECTOR + SELECTOR) == k + SELECTOR
  {
    assert Text.EndsWith(k + SELECTOR, SELECTOR);
    assert Text.EndsWith(k + SELECTOR + SELECTOR, SELECTOR);
  }

  /**
   * A key carrying two trailing selectors more than a record's `unified`
   * reaches it by no hex rule: only the name rule can match it then.
   */
  lemma DoubleSelectorNotStripped(e: Dataset.Emoji, code: string, text: string)
    requires Text.Lower(code) == Text.Lower(e.unified) + SELECTOR + SELECTOR
    ensures Matches(e, code, text) <==> Slug(e.name) == Text.Lower(text)
  {
    var u := Text.Lower(e.unified);
    StripSelectorOnce(u);
    assert |u| < |u + SELECTOR| < |Text.Lower(code)| < |Text.Lower(code) + SELECTOR|;
  }

  /**
   * Rule 4 sees the decoded text, not the key: a record whose slug is the
   * lower-cased text matches whatever the key is.
   */
  lemma MatchesBySlug(e: Dataset.Emoji, code: string, text: string)
    requires Slug(e.name) == Text.Lower(text)
    ensures Matches(e, code, text)
  {
  }

  /** Matching ignores the case of the key and of the text. */
  lemma MatchesIgnoresCase(e: Dataset.Emoji, code1: string, text1: string, code2: string, text2: string)
    requires Text.Lower(code1) == Text.Lower(code2) && Text.Lower(text1) == Text.Lower(text2)
    ensures Matches(e, code1, text1) <==> Matches(e, code2, text2)
  {
  }
}
