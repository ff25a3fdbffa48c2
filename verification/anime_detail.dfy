/**
 * What the detail panel (components/AnimeDetail.tsx) derives from an entry
 * before rendering: the description with markup stripped, the status label
 * and the fallbacks for title, banner, score, episodes and genres.
 */
module AnimeDetail {
  import opened Wrappers
  import opened Sequences
  import opened AnimeModel
  import opened Decimal

  const NoDescription: string := "No description available."
  const NotAvailable: string := "N/A"

  /** JavaScript `x || fallback` on a nullable string: `null` and `""` are falsy. */
  function OrElse(x: Option<string>, fallback: string): (r: string)
    ensures r == fallback || (x.Some? && r == x.value)
    ensures x.Some? && x.value != [] ==> r == x.value
    ensures (x.None? || x.value == []) ==> r == fallback
  {
    if x.Some? && x.value != [] then x.value else fallback
  }

  // ---------------------------------------------------------------------------
  // cleanDescription: `desc?.replace(/<[^>]*>?/gm, '') || 'No description available.'`
  // ---------------------------------------------------------------------------

  /** What is left after `[^>]*>?` matches at the start of `s`: everything through the first `>`, or all of `s`. */
  function SkipTag(s: string): (r: string)
    ensures |r| <= |s|
    ensures '>' !in s ==> r == []
  {
    if s == [] then []
    else if s[0] == '>' then s[1..]
    else SkipTag(s[1..])
  }

  /** The global replace of `/<[^>]*>?/` by the empty string, scanning left to right. */
  function StripTags(s: string): string
    decreases |s|
  {
    if s == [] then []
    else if s[0] == '<' then StripTags(SkipTag(s[1..]))
    else [s[0]] + StripTags(s[1..])
  }

  /** The description shown in the panel. */
  function CleanDescription(desc: Option<string>): string
  {
    OrElse(if desc.Some? then Some(StripTags(desc.value)) else None, NoDescription)
  }

  /** The skipped part of a tag is a suffix of the input. */
  lemma {:induction false} SkipTagSuffix(s: string)
    ensures SkipTag(s) == s[|s| - |SkipTag(s)|..]
  {
    if s != [] && s[0] != '>' {
      SkipTagSuffix(s[1..]);
    }
  }

  /** A tag closed by `>` is dropped with its brackets, and scanning resumes right after it. */
  lemma {:induction false} SkipTagClosed(t: string, u: string)
    requires '>' !in t
    ensures SkipTag(t + ">" + u) == u
  {
    if t == [] {
      assert t + ">" + u == [ '>' ] + u;
    } else {
      assert (t + ">" + u)[1..] == t[1..] + ">" + u;
      SkipTagClosed(t[1..], u);
    }
  }

  /** The stripped text never contains `<`. */
  lemma {:induction false} StripTagsNoOpen(s: string)
    ensures '<' !in StripTags(s)
    decreases |s|
  {
    if s != [] {
      if s[0] == '<' {
        StripTagsNoOpen(SkipTag(s[1..]));
      } else {
        StripTagsNoOpen(s[1..]);
      }
    }
  }

  /** Stripping only deletes characters: the output is an order-preserving subsequence of the input. */
  lemma {:induction false} StripTagsSubseq(s: string)
    ensures Subseq(StripTags(s), s)
    decreases |s|
  {
    if s != [] {
      if s[0] == '<' {
        var rest := SkipTag(s[1..]);
        StripTagsSubseq(rest);
        SkipTagSuffix(s[1..]);
        SubseqOfSuffix(StripTags(rest), s, |s| - |rest|);
      } else {
        StripTagsSubseq(s[1..]);
        assert s == [s[0]] + s[1..];
        SubseqCons(s[0], StripTags(s[1..]), s[1..]);
      }
    }
  }

  /** A subsequence of a suffix is a subsequence of the whole. */
  lemma {:induction false} SubseqOfSuffix(r: string, s: string, k: nat)
    requires k <= |s| && Subseq(r, s[k..])
    ensures Subseq(r, s)
    decreases k
  {
    if k > 0 {
      assert s[k - 1..] == [s[k - 1]] + s[k..];
      SubseqSkip(s[k - 1], r, s[k..]);
      SubseqOfSuffix(r, s, k - 1);
    } else {
      assert s[0..] == s;
    }
  }

  /** Text without `<` passes through unchanged; in particular stripping twice is stripping once. */
  lemma {:induction false} StripTagsPlain(s: string)
    requires '<' !in s
    ensures StripTags(s) == s
  {
    if s != [] {
      StripTagsPlain(s[1..]);
      assert s == [s[0]] + s[1..];
    }
  }

  /** Stripping is idempotent. */
  lemma StripTagsIdempotent(s: string)
    ensures StripTags(StripTags(s)) == StripTags(s)
  {
    StripTagsNoOpen(s);
    StripTagsPlain(StripTags(s));
  }

  /** A `<` never followed by `>` removes the rest of the string, whatever precedes it. */
  lemma {:induction false} StripTagsUnclosed(p: string, q: string)
    requires '>' !in q
    ensures StripTags(p + "<" + q) == StripTags(p)
    decreases |p|
  {
    var s := p + "<" + q;
    if p == [] {
      assert s == ['<'] + q;
      assert s[1..] == q;
    } else if p[0] == '<' {
      assert s[1..] == p[1..] + "<" + q;
      if '>' in p[1..] {
        var i :| 0 <= i < |p[1..]| && p[1..][i] == '>';
        SkipTagAppend(p[1..], "<" + q);
        assert p[1..] + "<" + q == p[1..] + ("<" + q);
        SkipTagSuffix(p[1..]);
        StripTagsUnclosed(SkipTag(p[1..]), q);
        assert SkipTag(p[1..]) + ("<" + q) == SkipTag(p[1..]) + "<" + q;
      } else {
        assert '>' !in s[1..];
      }
    } else {
      assert s[1..] == p[1..] + "<" + q;
      StripTagsUnclosed(p[1..], q);
    }
  }

  /** Once `s` contains a `>`, text appended after it does not change where the first tag ends. */
  lemma {:induction false} SkipTagAppend(s: string, t: string)
    requires '>' in s
    ensures SkipTag(s + t) == SkipTag(s) + t
  {
    if s[0] != '>' {
      assert (s + t)[1..] == s[1..] + t;
      SkipTagAppend(s[1..], t);
    } else {
      assert (s + t)[1..] == s[1..] + t;
    }
  }

  /**
   * The description falls back to the default sentence exactly when there is
   * none or nothing survives stripping; otherwise it is the stripped text,
   * which has no `<`, is a subsequence of the input, and is the input itself
   * when the input had no `<`.
   */
  lemma CleanDescriptionSpec(desc: Option<string>)
    ensures desc.None? ==> CleanDescription(desc) == NoDescription
    ensures desc.Some? && StripTags(desc.value) == [] ==> CleanDescription(desc) == NoDescription
    ensures desc.Some? && StripTags(desc.value) != [] ==>
      CleanDescription(desc) == StripTags(desc.value) && Subseq(CleanDescription(desc), desc.value)
    ensures desc.Some? && desc.value != [] && '<' !in desc.value ==> CleanDescription(desc) == desc.value
    ensures '<' !in CleanDescription(desc)
  {
    if desc.Some? {
      StripTagsNoOpen(desc.value);
      StripTagsSubseq(desc.value);
      if '<' !in desc.value {
        StripTagsPlain(desc.value);
      }
    }
  }

  /** A description that is all markup shows the default sentence. */
  lemma OnlyMarkupFallsBack(t: string)
    requires '>' !in t
    ensures CleanDescription(Some("<" + t + ">")) == NoDescription
  {
    var s := "<" + t + ">";
    SkipTagClosed(t, []);
    assert s[1..] == t + ">" + [];
    assert StripTags(s) == StripTags(SkipTag(s[1..]));
    assert StripTags(s) == [];
  }

  // ---------------------------------------------------------------------------
  // Status label: `anime.status.toLowerCase().replace('_', ' ')`
  // ---------------------------------------------------------------------------

  /** `toLowerCase` on one character of the ASCII range the enum uses. */
  function LowerChar(c: char): (r: char)
    ensures 'A' <= c <= 'Z' ==> 'a' <= r <= 'z' && r as int - 'a' as int == c as int - 'A' as int
    ensures !('A' <= c <= 'Z') ==> r == c
    ensures !('A' <= r <= 'Z')
  {
    if 'A' <= c <= 'Z' then (c as int - 'A' as int + 'a' as int) as char else c
  }

  /** `toLowerCase` on ASCII text: each capital becomes the same letter in lower case, nothing else changes. */
  function LowerCase(s: string): (r: string)
    ensures |r| == |s|
    ensures forall k :: 0 <= k < |s| && 'A' <= s[k] <= 'Z' ==> r[k] as int - 'a' as int == s[k] as int - 'A' as int
    ensures forall k :: 0 <= k < |s| && !('A' <= s[k] <= 'Z') ==> r[k] == s[k]
    ensures forall k :: 0 <= k < |s| ==> !('A' <= r[k] <= 'Z')
  {
    seq(|s|, k requires 0 <= k < |s| => LowerChar(s[k]))
  }

  /** `String.prototype.replace` with a string pattern of one character: only the first occurrence is replaced. */
  function ReplaceFirst(s: string, from: char, to: char): string
  {
    if s == [] then []
    else if s[0] == from then [to] + s[1..]
    else [s[0]] + ReplaceFirst(s[1..], from, to)
  }

  /** The first position of `c` in `s`. */
  function IndexOf(s: string, c: char): (i: nat)
    requires c in s
    ensures i < |s| && s[i] == c && c !in s[..i]
  {
    if s[0] == c then 0 else 1 + IndexOf(s[1..], c)
  }

  /** Replacing the first occurrence changes exactly that one position, or nothing when there is none. */
  lemma {:induction false} ReplaceFirstSpec(s: string, from: char, to: char)
    ensures |ReplaceFirst(s, from, to)| == |s|
    ensures from !in s ==> ReplaceFirst(s, from, to) == s
    ensures from in s ==> forall k :: 0 <= k < |s| ==>
      ReplaceFirst(s, from, to)[k] == if k == IndexOf(s, from) then to else s[k]
  {
    if s != [] && s[0] != from {
      ReplaceFirstSpec(s[1..], from, to);
      assert s == [s[0]] + s[1..];
      var r := ReplaceFirst(s, from, to);
      assert r == [s[0]] + ReplaceFirst(s[1..], from, to);
      if from in s {
        assert from in s[1..];
        forall k | 0 <= k < |s|
          ensures r[k] == if k == IndexOf(s, from) then to else s[k]
        {
          if k > 0 {
            assert r[k] == ReplaceFirst(s[1..], from, to)[k - 1];
          }
        }
      }
    }
  }

  /** The status line under "Status". */
  function StatusLabel(status: Status): string
  {
    ReplaceFirst(LowerCase(StatusName(status)), '_', ' ')
  }

  /**
   * Each status renders as its lower-cased name with only the first `_`
   * turned into a space: NOT_YET_RELEASED keeps its second underscore.
   */
  lemma StatusLabelText(status: Status)
    ensures StatusLabel(status) == match status
      case Finished => "finished"
      case Releasing => "releasing"
      case NotYetReleased => "not yet_released"
      case Cancelled => "cancelled"
      case Hiatus => "hiatus"
  {
    match status
    case Finished => FinishedLabel();
    case Releasing => ReleasingLabel();
    case NotYetReleased => NotYetReleasedLabel();
    case Cancelled => CancelledLabel();
    case Hiatus => HiatusLabel();
  }

  lemma FinishedLabel()
    ensures StatusLabel(Finished) == "finished"
  {
    assert LowerCase("FINISHED") == "finished";
    ReplaceFirstSpec("finished", '_', ' ');
  }

  lemma ReleasingLabel()
    ensures StatusLabel(Releasing) == "releasing"
  {
    assert LowerCase("RELEASING") == "releasing";
    ReplaceFirstSpec("releasing", '_', ' ');
  }

  lemma NotYetReleasedLabel()
    ensures StatusLabel(NotYetReleased) == "not yet_released"
  {
    LowerNotYetReleased();
    ReplaceInNotYetReleased();
  }

  lemma LowerNotYetReleased()
    ensures LowerCase("NOT_YET_RELEASED") == "not_yet_released"
  {
  }

  lemma ReplaceInNotYetReleased()
    ensures ReplaceFirst("not_yet_released", '_', ' ') == "not yet_released"
  {
  }

  lemma CancelledLabel()
    ensures StatusLabel(Cancelled) == "cancelled"
  {
    assert LowerCase("CANCELLED") == "cancelled";
    ReplaceFirstSpec("cancelled", '_', ' ');
  }

  lemma HiatusLabel()
    ensures StatusLabel(Hiatus) == "hiatus"
  {
    assert LowerCase("HIATUS") == "hiatus";
    ReplaceFirstSpec("hiatus", '_', ' ');
  }

  /** As written, the label of NOT_YET_RELEASED still shows an underscore. */
  lemma StatusLabelKeepsUnderscore()
    ensures '_' in StatusLabel(NotYetReleased)
  {
    NotYetReleasedLabel();
    assert "not yet_released"[7] == '_';
  }

  /** `replaceAll`: every occurrence of `from` becomes `to`, every other character stays. */
  function ReplaceAll(s: string, from: char, to: char): (r: string)
    ensures |r| == |s|
    ensures forall k :: 0 <= k < |s| ==> r[k] == if s[k] == from then to else s[k]
  {
    seq(|s|, k requires 0 <= k < |s| => if s[k] == from then to else s[k])
  }

  /** The label the panel evidently means to show: every underscore of the lower-cased name becomes a space. */
  function IntendedStatusLabel(status: Status): (r: string)
    ensures '_' !in r
    ensures |r| == |StatusName(status)|
  {
    ReplaceAll(LowerCase(StatusName(status)), '_', ' ')
  }

  /** The intended label of NOT_YET_RELEASED has both underscores turned into spaces. */
  lemma IntendedNotYetReleased()
    ensures IntendedStatusLabel(NotYetReleased) == "not yet released"
  {
    LowerNotYetReleased();
    ReplaceAllInNotYetReleased();
  }

  lemma ReplaceAllInNotYetReleased()
    ensures ReplaceAll("not_yet_released", '_', ' ') == "not yet released"
  {
  }

  /** Lower-casing neither creates nor removes underscores. */
  lemma LowerCaseUnderscores(s: string)
    ensures '_' in LowerCase(s) <==> '_' in s
  {
    var r := LowerCase(s);
    if '_' in r {
      var k :| 0 <= k < |r| && r[k] == '_';
      assert s[k] == '_';
    }
    if '_' in s {
      var k :| 0 <= k < |s| && s[k] == '_';
      assert r[k] == '_';
    }
  }

  /** On every status with fewer than two underscores the shipped and the intended label agree. */
  lemma IntendedAgreesElsewhere(status: Status)
    requires status != NotYetReleased
    ensures IntendedStatusLabel(status) == StatusLabel(status)
  {
    var name := StatusName(status);
    var lower := LowerCase(name);
    assert '_' !in name;
    LowerCaseUnderscores(name);
    ReplaceFirstSpec(lower, '_', ' ');
  }

  // ---------------------------------------------------------------------------
  // Display fallbacks
  // ---------------------------------------------------------------------------

  /** The heading: the English title when present and non-empty, else the romaji one. */
  function DisplayTitle(title: Title): (r: string)
    ensures r == title.romaji || (title.english.Some? && r == title.english.value)
    ensures title.english.Some? && title.english.value != [] ==> r == title.english.value
    ensures r != [] <==> (title.english.Some? && title.english.value != []) || title.romaji != []
  {
    OrElse(title.english, title.romaji)
  }

  /** The banner image: `bannerImage` when present and non-empty, else the extra-large cover. */
  function BannerSource(a: Anime): (r: string)
    ensures r == a.coverImage.extraLarge || (a.bannerImage.Some? && r == a.bannerImage.value)
    ensures a.bannerImage.Some? && a.bannerImage.value != [] ==> r == a.bannerImage.value
    ensures r != [] <==> (a.bannerImage.Some? && a.bannerImage.value != []) || a.coverImage.extraLarge != []
  {
    OrElse(a.bannerImage, a.coverImage.extraLarge)
  }

  /** `averageScore ? `${averageScore}/100` : 'N/A'`. */
  function ScoreLabel(score: Option<int>): string
  {
    if score.Some? && score.value != 0 then IntToString(score.value) + "/100" else NotAvailable
  }

  /** `episodes || 'N/A'`. */
  function EpisodesLabel(episodes: Option<int>): string
  {
    if episodes.Some? && episodes.value != 0 then IntToString(episodes.value) else NotAvailable
  }

  /** The score shows "N/A" exactly when it is absent or 0; otherwise the score can be read back from the label. */
  lemma ScoreLabelSpec(score: Option<int>)
    ensures ScoreLabel(score) == NotAvailable <==> score.None? || score.value == 0
    ensures score.Some? && score.value != 0 ==>
      var r := ScoreLabel(score);
      |r| > 4 && r[|r| - 4..] == "/100" && ParseInt(r[..|r| - 4]) == score.value
  {
    if score.Some? && score.value != 0 {
      var s := IntToString(score.value);
      var r := s + "/100";
      assert r[..|r| - 4] == s;
      assert r[|r| - 4..] == "/100";
      IntToStringRoundTrip(score.value);
    }
  }

  /** Episodes show "N/A" exactly when absent or 0; otherwise the count can be read back from the label. */
  lemma EpisodesLabelSpec(episodes: Option<int>)
    ensures EpisodesLabel(episodes) == NotAvailable <==> episodes.None? || episodes.value == 0
    ensures episodes.Some? && episodes.value != 0 ==> ParseInt(EpisodesLabel(episodes)) == episodes.value
  {
    if episodes.Some? && episodes.value != 0 {
      IntToStringRoundTrip(episodes.value);
      var r := IntToString(episodes.value);
      assert r != NotAvailable by {
        assert r[0] == '-' || IsDigit(r[0]);
      }
    }
  }

  /** `genres.slice(0, 3)`. */
  function ShownGenres(genres: seq<string>): seq<string>
  {
    if |genres| <= 3 then genres else genres[..3]
  }

  /** At most three genres are shown: the first ones, in their original order, and all of them when there are no more than three. */
  lemma ShownGenresSpec(genres: seq<string>)
    ensures |ShownGenres(genres)| == if |genres| < 3 then |genres| else 3
    ensures ShownGenres(genres) == genres[..|ShownGenres(genres)|]
  {
  }
}
