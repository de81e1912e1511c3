/**
 * The entry loop of `download_or_delete_from_dropbox` in
 * lambda_function.py. The folder listing is a sequence of entry paths; the
 * Dropbox download and delete calls become the actions the loop issues.
 */
module Inbox {
  import opened Text

  /** files_download of an entry into a scratch file, or files_delete of an entry. */
  datatype Action = Download(path: string, dest: string) | Delete(path: string)

  const MediaExtensions: seq<string> := [".mp4", ".mov", ".avi", ".mkv", ".wmv", ".flv", ".m4a", ".mp3"]

  /** The scratch name returned when the listing is empty (line 284). */
  const DefaultScratch: string := "/tmp/video.mp4"

  /** `s[lo..hi]` holds a character other than '.'. */
  predicate HasNonDot(s: string, lo: int, hi: int)
    requires 0 <= lo && hi <= |s|
  {
    exists k :: lo <= k < hi && s[k] != '.'
  }

  /**
   * `os.path.splitext` on POSIX: the extension starts at the last '.' of the
   * final path component, provided a character other than '.' comes before
   * it in that component; otherwise the extension is empty.
   */
  function SplitExt(p: string): (r: (string, string))
    ensures r.0 + r.1 == p
    ensures r.1 != [] <==> LastIndexOf(p, '.') > LastIndexOf(p, '/')
                           && HasNonDot(p, LastIndexOf(p, '/') + 1, LastIndexOf(p, '.'))
    ensures r.1 != [] ==> r.0 == p[..LastIndexOf(p, '.')]
  {
    var sep := LastIndexOf(p, '/');
    var dot := LastIndexOf(p, '.');
    if dot > sep && HasNonDot(p, sep + 1, dot) then (p[..dot], p[dot..])
    else (p, "")
  }

  /** The extension is empty or a '.' followed by characters that are neither '.' nor '/'. */
  lemma ExtensionShape(p: string)
    ensures var ext := SplitExt(p).1;
            ext == [] || (ext[0] == '.' && '.' !in ext[1..] && '/' !in ext)
  {
    var sep := LastIndexOf(p, '/');
    var dot := LastIndexOf(p, '.');
    var ext := SplitExt(p).1;
    if ext != [] {
      assert ext == p[dot..];
      forall k | 0 <= k < |ext| ensures ext[k] != '/' && (k > 0 ==> ext[k] != '.') {
        assert ext[k] == p[dot + k];
      }
    }
  }

  /**
   * Line 294: the scratch file is "/tmp/video" followed by the entry's
   * extension, so it stays a file directly under /tmp.
   */
  function ScratchName(p: string): (name: string)
    ensures |name| >= 10 && name[..10] == "/tmp/video" && '/' !in name[10..]
    ensures |name| == 10 || (name[10] == '.' && '.' !in name[11..])
  {
    ExtensionShape(p);
    var ext := SplitExt(p).1;
    assert ("/tmp/video" + ext)[10..] == ext;
    "/tmp/video" + ext
  }

  /**
   * The ordinary case: a path "dir/stem.ext" whose stem holds a character
   * other than '.' and whose extension holds no '.', splits at that '.'.
   */
  lemma SplitExtOf(dir: string, stem: string, ext: string)
    requires dir == [] || dir[|dir| - 1] == '/'
    requires '/' !in stem && '/' !in ext && '.' !in ext
    requires HasNonDot(stem, 0, |stem|)
    ensures SplitExt(dir + stem + "." + ext) == (dir + stem, "." + ext)
    ensures ScratchName(dir + stem + "." + ext) == "/tmp/video." + ext
  {
    var p := dir + stem + "." + ext;
    var d := |dir| + |stem|;
    assert p[d] == '.';
    forall k | d < k < |p| ensures p[k] != '.' && p[k] != '/' {
      assert p[k] == ext[k - d - 1];
    }
    assert LastIndexOf(p, '.') == d;
    forall k | |dir| <= k < d ensures p[k] != '/' {
      assert p[k] == stem[k - |dir|];
    }
    var sep := LastIndexOf(p, '/');
    if dir == [] {
      assert sep == -1;
    } else {
      assert p[|dir| - 1] == '/';
      assert sep == |dir| - 1;
    }
    var w :| 0 <= w < |stem| && stem[w] != '.';
    assert p[|dir| + w] == stem[w];
    assert HasNonDot(p, sep + 1, d);
    assert p[..d] == dir + stem;
    assert p[d..] == "." + ext;
  }

  /** Line 295-298: the lower-cased path contains one of the media extensions. */
  predicate IsMedia(p: string)
    ensures IsMedia(p) <==> exists x :: x in MediaExtensions && Contains(Lower(p), x)
  {
    ContainsAny(Lower(p), MediaExtensions)
  }

  /** Some string of `xs` occurs in `s` (Python's `any(x in s for x in xs)`). */
  predicate ContainsAny(s: string, xs: seq<string>)
    ensures ContainsAny(s, xs) <==> exists x :: x in xs && Contains(s, x)
  {
    assert xs != [] ==> forall x :: x in xs <==> x == xs[0] || x in xs[1..];
    xs != [] && (Contains(s, xs[0]) || ContainsAny(s, xs[1..]))
  }

  /** How many calls a media entry gets: one per flag that is set. */
  function Flags(download: bool, delete: bool): nat
  {
    (if download then 1 else 0) + (if delete then 1 else 0)
  }

  /** The calls issued for one entry, in the order of lines 299-304. */
  function EntryActions(p: string, download: bool, delete: bool): (acts: seq<Action>)
    ensures |acts| == if IsMedia(p) then Flags(download, delete) else 0
    ensures forall a :: a in acts ==> a.path == p
  {
    if IsMedia(p) then
      var fetch: seq<Action> := if download then [Download(p, ScratchName(p))] else [];
      var remove: seq<Action> := if delete then [Delete(p)] else [];
      assert forall a :: a in fetch + remove ==> a in fetch || a in remove;
      fetch + remove
    else []
  }

  /** The calls issued for a listing, entry by entry. */
  function InboxActions(entries: seq<string>, download: bool, delete: bool): (acts: seq<Action>)
    ensures |acts| == (if download then |MediaEntries(entries)| else 0) + (if delete then |MediaEntries(entries)| else 0)
  {
    if entries == [] then []
    else
      var init, last := entries[..|entries| - 1], entries[|entries| - 1];
      assert |MediaEntries(entries)| == |MediaEntries(init)| + if IsMedia(last) then 1 else 0;
      InboxActions(init, download, delete) + EntryActions(last, download, delete)
  }

  /** One more entry of the listing adds that entry's calls at the end. */
  lemma InboxActionsStep(entries: seq<string>, i: nat, download: bool, delete: bool)
    requires i < |entries|
    ensures InboxActions(entries[..i + 1], download, delete)
            == InboxActions(entries[..i], download, delete) + EntryActions(entries[i], download, delete)
  {
    assert entries[..i + 1][..i] == entries[..i];
  }

  /** The media entries of a listing, in listing order. */
  function MediaEntries(entries: seq<string>): (m: seq<string>)
    ensures forall p :: p in m <==> p in entries && IsMedia(p)
  {
    if entries == [] then []
    else
      var last := entries[|entries| - 1];
      MediaEntries(entries[..|entries| - 1]) + (if IsMedia(last) then [last] else [])
  }

  /** The body of the loop for one entry: the calls it issues and the scratch name it sets. */
  method VisitEntry(entry: string, download: bool, delete: bool) returns (issued: seq<Action>, scratch: string)
    ensures issued == EntryActions(entry, download, delete)
    ensures scratch == ScratchName(entry)
  {
    var ext := SplitExt(entry).1;
    scratch := "/tmp/video" + ext;
    issued := [];
    if IsMedia(entry) {
      if download {
        issued := issued + [Download(entry, scratch)];
      }
      if delete {
        issued := issued + [Delete(entry)];
      }
    }
  }

  /**
   * download_or_delete_from_dropbox(download, delete) over a listing: the
   * calls it makes and the scratch name it returns, which comes from the
   * last entry whether or not that entry is media.
   */
  method DownloadOrDelete(entries: seq<string>, download: bool, delete: bool)
    returns (actions: seq<Action>, scratch: string)
    ensures actions == InboxActions(entries, download, delete)
    ensures scratch == if entries == [] then DefaultScratch else ScratchName(entries[|entries| - 1])
  {
    scratch := DefaultScratch;
    actions := [];
    var i := 0;
    while i < |entries|
      invariant 0 <= i <= |entries|
      invariant actions == InboxActions(entries[..i], download, delete)
      invariant scratch == if i == 0 then DefaultScratch else ScratchName(entries[i - 1])
    {
      var issued;
      issued, scratch := VisitEntry(entries[i], download, delete);
      actions := actions + issued;
      InboxActionsStep(entries, i, download, delete);
      i := i + 1;
    }
    assert entries[..i] == entries;
  }

  /** With download only, one Download per media entry, in listing order, each to that entry's scratch name. */
  lemma {:induction false} DownloadsFollowListing(entries: seq<string>)
    ensures var acts := InboxActions(entries, true, false);
            var media := MediaEntries(entries);
            |acts| == |media|
            && forall k :: 0 <= k < |acts| ==> acts[k] == Download(media[k], ScratchName(media[k]))
  {
    if entries != [] {
      DownloadsFollowListing(entries[..|entries| - 1]);
    }
  }

  /** With delete only, one Delete per media entry, in listing order. */
  lemma {:induction false} DeletesFollowListing(entries: seq<string>)
    ensures var acts := InboxActions(entries, false, true);
            var media := MediaEntries(entries);
            |acts| == |media| && forall k :: 0 <= k < |acts| ==> acts[k] == Delete(media[k])
  {
    if entries != [] {
      DeletesFollowListing(entries[..|entries| - 1]);
    }
  }

  /** Every call is about a media entry of the listing, and a download lands at that entry's scratch name. */
  lemma {:induction false} ActionsOnlyForMedia(entries: seq<string>, download: bool, delete: bool)
    ensures forall a :: a in InboxActions(entries, download, delete) ==>
              a.path in entries && IsMedia(a.path) && (a.Download? ==> download && a.dest == ScratchName(a.path))
                                                   && (a.Delete? ==> delete)
  {
    if entries != [] {
      var init := entries[..|entries| - 1];
      ActionsOnlyForMedia(init, download, delete);
      forall a | a in InboxActions(init, download, delete) ensures a.path in entries {
        assert a.path in init;
      }
    }
  }

  /**
   * An ordinary video entry is media and is downloaded to "/tmp/video.mp4".
   * The path is a parameter fixed by `requires`, so the verifier works with
   * its pieces instead of unfolding the literal in the goal.
   */
  lemma ClipName(p: string)
    requires p == "/v/clip.mp4"
    ensures IsMedia(p) && ScratchName(p) == "/tmp/video.mp4"
  {
    ClipScratch(p, "/v/", "clip", "mp4");
    ClipIsMedia(p);
  }

  /** The scratch-name half of ClipName. */
  lemma ClipScratch(p: string, dir: string, stem: string, ext: string)
    requires dir == "/v/" && stem == "clip" && ext == "mp4" && p == dir + stem + "." + ext
    ensures ScratchName(p) == "/tmp/video.mp4"
  {
    assert stem[0] != '.';
    SplitExtOf(dir, stem, ext);
  }

  /** The media half of ClipName. */
  lemma ClipIsMedia(p: string)
    requires p == "/v/clip.mp4"
    ensures IsMedia(p)
  {
    assert OccursAt(Lower(p), ".mp4", 7);
    ContainsIff(Lower(p), ".mp4");
  }

  /** A media entry whose name has no usable extension is downloaded to "/tmp/video". */
  lemma DotOnlyName()
    ensures IsMedia("/..mp4") && ScratchName("/..mp4") == "/tmp/video"
  {
    var p := "/..mp4";
    assert p[..5][..4][..3] == "/..";
    assert LastIndexOf(p[..5][..4][..3], '.') == 2;
    assert LastIndexOf(p, '.') == 2;
    assert LastIndexOf(p[..5][..4][..3][..2][..1], '/') == 0;
    assert LastIndexOf(p, '/') == 0;
    assert !HasNonDot(p, 1, 2);
    assert OccursAt(Lower(p), ".mp4", 2);
    ContainsIff(Lower(p), ".mp4");
  }
}
