/** The page generator: one page per attendee, written under
    `p/<slug>/index.html`, with a count of the pages generated.  The file
    system is a map from path to contents; reading the template and the
    attendee list, creating directories and printing progress are outside
    this model. */
module Pages {
  import opened TextSearch
  import opened Renderer
  import opened ReplacementTemplate

  /** One file write: where, and what. */
  datatype Page = Page(path: string, html: string)

  const PagesDir: string := "p/"
  const IndexFile: string := "/index.html"

  /** The path of an attendee's page: `p/<slug>/index.html`. */
  function PagePath(slug: string): (path: string)
    ensures |path| == |PagesDir| + |slug| + |IndexFile|
    ensures path[..|PagesDir|] == PagesDir && path[|PagesDir|..|PagesDir| + |slug|] == slug
    ensures path[|PagesDir| + |slug|..] == IndexFile
  {
    PagesDir + slug + IndexFile
  }

  /** Different slugs give different paths. */
  lemma PagePathInjective(s: string, t: string)
    requires PagePath(s) == PagePath(t)
    ensures s == t
  {
    assert |s| == |t|;
    assert s == PagePath(s)[|PagesDir|..|PagesDir| + |s|];
  }

  /** The write made for one attendee. */
  function PageFor(template: string, a: Attendee): Page {
    Page(PagePath(a.slug), Render(template, a))
  }

  /** The writes made for the attendees, in order. */
  function PagesFor(template: string, attendees: seq<Attendee>): (ps: seq<Page>)
    ensures |ps| == |attendees|
  {
    if |attendees| == 0 then []
    else PagesFor(template, attendees[..|attendees| - 1]) + [PageFor(template, attendees[|attendees| - 1])]
  }

  /** The `k`th write is the `k`th attendee's page. */
  lemma {:induction false} PagesForAt(template: string, attendees: seq<Attendee>, k: nat)
    requires k < |attendees|
    ensures PagesFor(template, attendees)[k] == PageFor(template, attendees[k])
  {
    var n, init := |attendees| - 1, attendees[..|attendees| - 1];
    var ps := PagesFor(template, init);
    assert PagesFor(template, attendees) == ps + [PageFor(template, attendees[n])];
    if k < n {
      PagesForAt(template, init, k);
      assert init[k] == attendees[k];
      assert (ps + [PageFor(template, attendees[n])])[k] == ps[k];
    }
  }

  /** The file system after the writes `ws`, in order; a write to an
      existing path replaces its contents. */
  function ApplyWrites(fs: map<string, string>, ws: seq<Page>): map<string, string> {
    if |ws| == 0 then fs
    else ApplyWrites(fs, ws[..|ws| - 1])[ws[|ws| - 1].path := ws[|ws| - 1].html]
  }

  /** What the last write to `p` among `ws` wrote, if any write went there. */
  function LastWrite(ws: seq<Page>, p: string): (r: Option<string>)
    ensures r.None? <==> forall k :: 0 <= k < |ws| ==> ws[k].path != p
    ensures forall k :: 0 <= k < |ws| && ws[k].path == p && (forall j :: k < j < |ws| ==> ws[j].path != p) ==>
      r == Some(ws[k].html)
  {
    if |ws| == 0 then None
    else if ws[|ws| - 1].path == p then Some(ws[|ws| - 1].html)
    else
      var init := ws[..|ws| - 1];
      assert forall k :: 0 <= k < |init| ==> init[k] == ws[k];
      LastWrite(init, p)
  }

  /** Each path holds what the last write to it wrote, and a path never
      written keeps what it held. */
  lemma {:induction false} LastWriteWins(fs: map<string, string>, ws: seq<Page>, p: string)
    ensures LastWrite(ws, p).Some? ==> p in ApplyWrites(fs, ws) && ApplyWrites(fs, ws)[p] == LastWrite(ws, p).value
    ensures LastWrite(ws, p).None? ==> (p in ApplyWrites(fs, ws) <==> p in fs)
    ensures LastWrite(ws, p).None? && p in fs ==> ApplyWrites(fs, ws)[p] == fs[p]
  {
    if |ws| > 0 {
      LastWriteWins(fs, ws[..|ws| - 1], p);
    }
  }

  /** An attendee whose slug no later attendee shares finds their own
      rendering at their page path (so with distinct slugs every page is
      there; with a repeated slug the last attendee's page wins). */
  lemma SiteHoldsEveryPage(fs: map<string, string>, template: string, attendees: seq<Attendee>, k: nat)
    requires k < |attendees|
    requires forall j :: k < j < |attendees| ==> attendees[j].slug != attendees[k].slug
    ensures PagePath(attendees[k].slug) in ApplyWrites(fs, PagesFor(template, attendees))
    ensures ApplyWrites(fs, PagesFor(template, attendees))[PagePath(attendees[k].slug)] == Render(template, attendees[k])
  {
    var ws := PagesFor(template, attendees);
    var p := PagePath(attendees[k].slug);
    forall j | k < j < |ws| ensures ws[j].path != p {
      PagesForAt(template, attendees, j);
      if ws[j].path == p {
        PagePathInjective(attendees[j].slug, attendees[k].slug);
      }
    }
    PagesForAt(template, attendees, k);
    LastWriteWins(fs, ws, p);
  }

  /** Only the attendees' page paths are written to. */
  lemma SiteKeepsOtherFiles(fs: map<string, string>, template: string, attendees: seq<Attendee>, p: string)
    requires p in fs && forall k :: 0 <= k < |attendees| ==> p != PagePath(attendees[k].slug)
    ensures p in ApplyWrites(fs, PagesFor(template, attendees))
    ensures ApplyWrites(fs, PagesFor(template, attendees))[p] == fs[p]
  {
    var ws := PagesFor(template, attendees);
    forall k | 0 <= k < |ws| ensures ws[k].path != p {
      PagesForAt(template, attendees, k);
    }
    LastWriteWins(fs, ws, p);
  }

  /** One round of the generator loop: the attendee's directory, the page
      rendered for them, and the write of the page to `index.html` in that
      directory. */
  method WritePage(template: string, a: Attendee, files: map<string, string>)
    returns (files': map<string, string>, page: Page)
    ensures page == PageFor(template, a)
    ensures files' == files[page.path := page.html]
  {
    var dirPath := PagesDir + a.slug;
    var html := Render(template, a);
    page := Page(dirPath + IndexFile, html);
    files' := files[page.path := page.html];
  }

  /** The generator loop: for each attendee in order, render the page,
      write it to `p/<slug>/index.html` and count it.  Returns the file
      system afterwards, the writes made, and the count. */
  method GeneratePages(template: string, attendees: seq<Attendee>, fs: map<string, string>)
    returns (files: map<string, string>, written: seq<Page>, generated: nat)
    ensures generated == |attendees|
    ensures written == PagesFor(template, attendees)
    ensures files == ApplyWrites(fs, written)
  {
    files, written, generated := fs, [], 0;
    for i := 0 to |attendees|
      invariant generated == i
      invariant written == PagesFor(template, attendees[..i])
      invariant files == ApplyWrites(fs, written)
    {
      var page;
      files, page := WritePage(template, attendees[i], files);
      PagesForNext(template, attendees, i);
      ApplyWritesSnoc(fs, written, page);
      written := written + [page];
      generated := generated + 1;
    }
    assert attendees[..|attendees|] == attendees;
  }

  lemma ApplyWritesSnoc(fs: map<string, string>, ws: seq<Page>, w: Page)
    ensures ApplyWrites(fs, ws + [w]) == ApplyWrites(fs, ws)[w.path := w.html]
  {
    assert (ws + [w])[..|ws|] == ws;
  }

  /** The writes for one more attendee: those before, then that attendee's. */
  lemma PagesForNext(template: string, attendees: seq<Attendee>, i: nat)
    requires i < |attendees|
    ensures PagesFor(template, attendees[..i + 1]) == PagesFor(template, attendees[..i]) + [PageFor(template, attendees[i])]
  {
    assert attendees[..i + 1][..i] == attendees[..i];
  }

  // The loop as written: the renderer hands the accommodation message to
  // `re.sub` as a replacement template, so a bad escape in the name or the
  // accommodation value of an attendee with a non-empty accommodation value
  // raises an error that ends the loop.

  /** The write made for one attendee by the renderer as written, when it
      raises no error. */
  function PageAsWritten(template: string, a: Attendee): Page
    requires RenderAsWritten(template, a).Some?
  {
    Page(PagePath(a.slug), RenderAsWritten(template, a).value)
  }

  /** No attendee's page raises an error in the renderer as written. */
  predicate NoneRaise(template: string, attendees: seq<Attendee>) {
    forall k :: 0 <= k < |attendees| ==> RenderAsWritten(template, attendees[k]).Some?
  }

  /** The writes the loop as written makes for attendees none of whom
      raises an error, in order. */
  function PagesAsWritten(template: string, attendees: seq<Attendee>): (ps: seq<Page>)
    requires NoneRaise(template, attendees)
    ensures |ps| == |attendees|
  {
    if |attendees| == 0 then []
    else
      var init := attendees[..|attendees| - 1];
      assert forall k :: 0 <= k < |init| ==> init[k] == attendees[k];
      PagesAsWritten(template, init) + [PageAsWritten(template, attendees[|attendees| - 1])]
  }

  /** One round of the loop as written: the page is rendered and written,
      or rendering raises and nothing is written. */
  method WritePageAsWritten(template: string, a: Attendee, files: map<string, string>)
    returns (files': map<string, string>, page: Option<Page>)
    ensures page.None? <==> RenderAsWritten(template, a).None?
    ensures page.Some? ==> page.value == PageAsWritten(template, a) && files' == files[page.value.path := page.value.html]
    ensures page.None? ==> files' == files
  {
    var dirPath := PagesDir + a.slug;
    var html := RenderAsWritten(template, a);
    match html
    case None =>
      files', page := files, None;
    case Some(h) =>
      var p := Page(dirPath + IndexFile, h);
      files', page := files[p.path := p.html], Some(p);
  }

  /** The generator loop as written.  It stops at the first attendee whose
      page raises an error (`raised`): the attendees before that one have
      their pages written and counted, no later attendee gets a page. */
  method GeneratePagesAsWritten(template: string, attendees: seq<Attendee>, fs: map<string, string>)
    returns (files: map<string, string>, written: seq<Page>, generated: nat, raised: bool)
    ensures generated <= |attendees|
    ensures forall k :: 0 <= k < generated ==> RenderAsWritten(template, attendees[k]).Some?
    ensures raised <==> generated < |attendees|
    ensures raised ==> RenderAsWritten(template, attendees[generated]).None?
    ensures written == PagesAsWritten(template, attendees[..generated])
    ensures files == ApplyWrites(fs, written)
  {
    files, written, generated, raised := fs, [], 0, false;
    while generated < |attendees|
      invariant generated <= |attendees|
      invariant forall k :: 0 <= k < generated ==> RenderAsWritten(template, attendees[k]).Some?
      invariant written == PagesAsWritten(template, attendees[..generated])
      invariant files == ApplyWrites(fs, written)
    {
      var page;
      files, page := WritePageAsWritten(template, attendees[generated], files);
      if page.None? {
        raised := true;
        return;
      }
      PagesAsWrittenNext(template, attendees, generated);
      ApplyWritesSnoc(fs, written, page.value);
      written := written + [page.value];
      generated := generated + 1;
    }
  }

  lemma PagesAsWrittenNext(template: string, attendees: seq<Attendee>, i: nat)
    requires i < |attendees| && forall k :: 0 <= k <= i ==> RenderAsWritten(template, attendees[k]).Some?
    ensures PagesAsWritten(template, attendees[..i + 1]) ==
      PagesAsWritten(template, attendees[..i]) + [PageAsWritten(template, attendees[i])]
  {
    assert attendees[..i + 1][..i] == attendees[..i];
  }

  /** The k-th write of the loop as written is the k-th attendee's page. */
  lemma {:induction false} PagesAsWrittenAt(template: string, attendees: seq<Attendee>, k: nat)
    requires NoneRaise(template, attendees)
    requires k < |attendees|
    ensures PagesAsWritten(template, attendees)[k] == PageAsWritten(template, attendees[k])
  {
    var n := |attendees| - 1;
    PagesAsWrittenLast(template, attendees);
    var ps, last := PagesAsWritten(template, attendees[..n]), PageAsWritten(template, attendees[n]);
    if k < n {
      PagesAsWrittenAt(template, attendees[..n], k);
      assert attendees[..n][k] == attendees[k];
      assert (ps + [last])[k] == ps[k];
    } else {
      assert (ps + [last])[k] == last;
    }
  }

  /** The last write of the loop as written follows those for the others. */
  lemma PagesAsWrittenLast(template: string, attendees: seq<Attendee>)
    requires NoneRaise(template, attendees) && |attendees| > 0
    ensures NoneRaise(template, attendees[..|attendees| - 1])
    ensures PagesAsWritten(template, attendees) ==
      PagesAsWritten(template, attendees[..|attendees| - 1]) + [PageAsWritten(template, attendees[|attendees| - 1])]
  {
    var n := |attendees| - 1;
    assert forall j :: 0 <= j < n ==> attendees[..n][j] == attendees[j];
  }

  /** When no attendee with a non-empty accommodation value has a backslash
      in the name or in that value, the loop as written raises nothing and
      writes exactly the literal renderer's pages. */
  lemma {:induction false} PagesAsWrittenAgree(template: string, attendees: seq<Attendee>)
    requires forall k :: 0 <= k < |attendees| && HasAccommodation(attendees[k]) ==>
      NoBackslash(attendees[k].name) && NoBackslash(attendees[k].accommodation.value)
    ensures forall k :: 0 <= k < |attendees| ==> RenderAsWritten(template, attendees[k]).Some?
    ensures PagesAsWritten(template, attendees) == PagesFor(template, attendees)
  {
    forall k | 0 <= k < |attendees| ensures RenderAsWritten(template, attendees[k]) == Some(Render(template, attendees[k])) {
      RenderAsWrittenAgrees(template, attendees[k]);
    }
    if |attendees| > 0 {
      var n := |attendees| - 1;
      var init := attendees[..n];
      assert forall k :: 0 <= k < n ==> init[k] == attendees[k];
      PagesAsWrittenAgree(template, init);
    }
  }
}
