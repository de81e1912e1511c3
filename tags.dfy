/**
 * `parse_html_tags` of lambda_function.py: pulls the four tagged fields out
 * of the summariser's reply. Each field is what `re.search("<X>(.*?)</X>",
 * s, re.DOTALL)` captures: the text between the leftmost opening tag that has
 * a closing tag after it and the first such closing tag.
 */
module Tags {
  import opened Wrappers
  import opened Text

  /** A value of the parsed dictionary. */
  datatype Field = Str(text: string) | StrList(items: seq<string>)

  function OpenTag(name: string): string { "<" + name + ">" }
  function CloseTag(name: string): string { "</" + name + ">" }

  /** A regex match of `<name>(.*?)</name>` opening at `i` and closing at `j`. */
  predicate MatchAt(s: string, name: string, i: nat, j: nat)
  {
    OccursAt(s, OpenTag(name), i) && i + |OpenTag(name)| <= j && OccursAt(s, CloseTag(name), j)
  }

  /** The captured group of the search, or None when there is no match. */
  function TagContent(s: string, name: string): (r: Option<string>)
    ensures r.Some? ==> exists i: nat, j: nat :: MatchAt(s, name, i, j) && r.value == s[i + |OpenTag(name)|..j]
  {
    match FindFrom(s, OpenTag(name), 0)
    case None => None
    case Some(i) =>
      match FindFrom(s, CloseTag(name), i + |OpenTag(name)|)
      case None => None
      case Some(j) =>
        assert MatchAt(s, name, i, j);
        Some(s[i + |OpenTag(name)|..j])
  }

  /**
   * TagContent is the leftmost-then-shortest match: None exactly when no
   * match exists, and otherwise the capture of the match with the smallest
   * opening index and, for that one, the smallest closing index.
   */
  lemma TagContentIsLeftmostShortest(s: string, name: string)
    ensures TagContent(s, name).None? <==> forall i: nat, j: nat :: !MatchAt(s, name, i, j)
    ensures TagContent(s, name).Some? ==>
              exists i: nat, j: nat ::
                && MatchAt(s, name, i, j)
                && TagContent(s, name).value == s[i + |OpenTag(name)|..j]
                && (forall i': nat, j': nat :: i' < i ==> !MatchAt(s, name, i', j'))
                && (forall j': nat :: j' < j ==> !MatchAt(s, name, i, j'))
  {
    var o, c := OpenTag(name), CloseTag(name);
    var fo := FindFrom(s, o, 0);
    if fo.None? {
      forall i: nat, j: nat ensures !MatchAt(s, name, i, j) { }
    } else {
      var i := fo.value;
      var fc := FindFrom(s, c, i + |o|);
      if fc.None? {
        forall i': nat, j': nat ensures !MatchAt(s, name, i', j') { }
      } else {
        var j := fc.value;
        assert MatchAt(s, name, i, j);
        forall i': nat, j': nat | i' < i ensures !MatchAt(s, name, i', j') { }
        forall j': nat | j' < j ensures !MatchAt(s, name, i, j') { }
      }
    }
  }

  /** The list comprehension of line 275. */
  function StripEach(parts: seq<string>): (r: seq<string>)
    ensures |r| == |parts|
    ensures forall k :: 0 <= k < |parts| ==> r[k] == Strip(parts[k])
  {
    seq(|parts|, k requires 0 <= k < |parts| => Strip(parts[k]))
  }

  const Keys: set<string> := {"TITLE", "KEYPOINTS", "SUMMARY", "TAGS"}

  /** The stripped capture of a text field, or "" when its tags are missing. */
  function TextField(s: string, name: string): (field: string)
    ensures TagContent(s, name).None? ==> field == ""
    ensures Strip(field) == field
  {
    match TagContent(s, name)
    case None => ""
    case Some(c) =>
      StripIdempotent(c);
      Strip(c)
  }

  /** The TAGS list: the stripped pieces of the stripped capture split on commas, or []. */
  function TagList(s: string): (tags: seq<string>)
    ensures tags == [] <==> TagContent(s, "TAGS").None?
  {
    match TagContent(s, "TAGS")
    case None => []
    case Some(c) => StripEach(Split(Strip(c), ','))
  }

  /**
   * Lines 259-269, one text field: a match replaces the empty default with
   * the stripped capture, no match leaves the default.
   */
  method SetText(parsed: map<string, Field>, input: string, name: string) returns (updated: map<string, Field>)
    requires name in parsed && parsed[name] == Str("")
    ensures updated == parsed[name := Str(TextField(input, name))]
  {
    updated := parsed;
    var found := TagContent(input, name);
    if found.Some? {
      updated := parsed[name := Str(Strip(found.value))];
    }
  }

  /** parse_html_tags: fills the four keys of the result one by one. */
  method ParseHtmlTags(input: string) returns (parsed: map<string, Field>)
    ensures parsed.Keys == Keys
    ensures parsed["TITLE"] == Str(TextField(input, "TITLE"))
    ensures parsed["KEYPOINTS"] == Str(TextField(input, "KEYPOINTS"))
    ensures parsed["SUMMARY"] == Str(TextField(input, "SUMMARY"))
    ensures parsed["TAGS"] == StrList(TagList(input))
  {
    parsed := map["TITLE" := Str(""), "KEYPOINTS" := Str(""), "SUMMARY" := Str(""), "TAGS" := StrList([])];
    parsed := SetText(parsed, input, "TITLE");
    parsed := SetText(parsed, input, "KEYPOINTS");
    parsed := SetText(parsed, input, "SUMMARY");
    var tags := TagContent(input, "TAGS");
    if tags.Some? {
      var pieces := Split(Strip(tags.value), ',');
      parsed := parsed["TAGS" := StrList(StripEach(pieces))];
    }
  }

  /** Strip never removes a comma, so the captured TAGS text yields one entry per comma plus one. */
  lemma TagCount(s: string)
    requires TagContent(s, "TAGS").Some?
    ensures |TagList(s)| == Count(TagContent(s, "TAGS").value, ',') + 1
  {
    StripKeeps(TagContent(s, "TAGS").value, ',');
  }

  /** Every TAGS entry is stripped and free of commas. */
  lemma TagEntriesClean(s: string)
    ensures forall k :: 0 <= k < |TagList(s)| ==>
              ',' !in TagList(s)[k] && Strip(TagList(s)[k]) == TagList(s)[k]
  {
    var tags := TagList(s);
    if TagContent(s, "TAGS").Some? {
      var parts := Split(Strip(TagContent(s, "TAGS").value), ',');
      forall k | 0 <= k < |tags| ensures ',' !in tags[k] && Strip(tags[k]) == tags[k] {
        StripIdempotent(parts[k]);
        StripKeeps(parts[k], ',');
      }
    }
  }

  /** An empty TAGS pair gives one empty tag; a missing one gives none. */
  lemma EmptyTags()
    ensures TagList("<TAGS></TAGS>") == [""]
    ensures TagList("no tags") == []
  {
    var s := "<TAGS></TAGS>";
    assert OccursAt(s, OpenTag("TAGS"), 0);
    assert OccursAt(s, CloseTag("TAGS"), 6);
    assert FindFrom(s, OpenTag("TAGS"), 0) == Some(0);
    assert |OpenTag("TAGS")| == 6;
    assert FindFrom(s, CloseTag("TAGS"), 0 + |OpenTag("TAGS")|) == Some(6);
    assert s[6..6] == "";
    assert TagContent(s, "TAGS") == Some(s[6..6]);
    var t := "no tags";
    forall k: nat ensures !OccursAt(t, OpenTag("TAGS"), k) {
      if k + 6 <= |t| { assert t[k..k + 6][0] == t[k] != '<'; }
    }
    assert TagContent(t, "TAGS") == None;
  }

  /** A reply that opens with the tag and has no '<' inside the field yields the field. */
  lemma LeadingTag(name: string, c: string, post: string)
    requires '<' !in c
    ensures TagContent(OpenTag(name) + c + CloseTag(name) + post, name) == Some(c)
  {
    var o, cl := OpenTag(name), CloseTag(name);
    var s := o + c + cl + post;
    assert s[..|o|] == o;
    assert OccursAt(s, o, 0);
    assert FindFrom(s, o, 0) == Some(0);
    var j := |o| + |c|;
    assert s[j..j + |cl|] == cl;
    forall k | |o| <= k < j ensures !OccursAt(s, cl, k) {
      assert s[k] == c[k - |o|];
      assert s[k..k + |cl|][0] == s[k];
    }
    assert OccursAt(s, cl, j);
    var r := FindFrom(s, cl, |o|);
    assert r.Some?;
    assert r.value == j;
    assert s[|o|..j] == c;
  }

  /** Two comma-separated entries come out as the two stripped entries. */
  lemma TwoTags(a: string, b: string)
    requires ',' !in a && ',' !in b
    ensures StripEach(Split(Strip(a + [','] + b), ',')) == [Strip(a), Strip(b)]
  {
    StripAround(a, b, ',');
    var l, r := StripLeft(a), StripRight(b);
    StripSideKeepsAbsence(a, ',');
    StripSideKeepsAbsence(b, ',');
    SplitAround(l, r, ',');
    SplitNoSeparator(l, ',');
    SplitNoSeparator(r, ',');
    StripOneSide(a);
    StripOneSide(b);
  }

  lemma StripSampleEntries()
    ensures Strip("ai") == "ai" && Strip(" video") == "video"
  {
    StripUnchanged("ai");
    var b := " video";
    assert StripLeft(b) == StripLeft(b[1..]);
    StripUnchanged(b[1..]);
  }

  /**
   * The pieces of "ai, video": split on the comma, each stripped. The text
   * is a parameter fixed by `requires`, as in the example below, so that
   * the verifier treats it as a name and not as a literal to unfold.
   */
  lemma SplitTagsExample(c: string)
    requires c == "ai, video"
    ensures StripEach(Split(Strip(c), ',')) == ["ai", "video"]
  {
    var a, b := "ai", " video";
    assert c == a + [','] + b;
    TwoTags(a, b);
    StripSampleEntries();
  }

  /** The reply "<TAGS>ai, video</TAGS>": the tags come out split on the comma and stripped. */
  lemma TagsExample(reply: string)
    requires reply == OpenTag("TAGS") + "ai, video" + CloseTag("TAGS")
    ensures TagList(reply) == ["ai", "video"]
  {
    var c := "ai, video";
    LeadingTag("TAGS", c, "");
    assert reply == OpenTag("TAGS") + c + CloseTag("TAGS") + "";
    SplitTagsExample(c);
  }
}
