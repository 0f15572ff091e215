/** The page renderer: one attendee record and the shared template in, one
    HTML page out.  The name placeholder is replaced first; then the
    accommodation block is resolved by one of two branches, chosen by
    whether the attendee has a non-empty accommodation value. */
module Renderer {
  import opened TextSearch
  import opened Splice

  /** An attendee record.  `accommodation` is `None` when the record has no
      such key (or a JSON null), and otherwise the text it holds. */
  datatype Attendee = Attendee(name: string, slug: string, accommodation: Option<string>)

  const NameToken: string := "{{ name }}"
  const IfToken: string := "{% if accommodation %}"
  const ElseToken: string := "{% else %}"
  const EndifToken: string := "{% endif %}"
  const ComingSoonDiv: string := "<div class=\"coming-soon\">"

  const Greeting: string := "<p>Hey "
  const Thanks: string :=
    "! Thanks again for joining, we look " + "forward to having you here. You " +
    "should have received a personal " + "message from us regarding your " +
    "accommodation. We have planned " + "you at: "
  const StrongOpen: string := "<strong>"
  const StrongClose: string := "</strong>"
  /** Closes the first paragraph and opens the fixed confirmation paragraph. */
  const Confirmation: string := "</p>\n        <p>Please let us " + "know if this is okay for you.</p>"

  /** The accommodation branch is taken exactly when the key is present and
      its value is non-empty (Python truthiness of a string). */
  predicate HasAccommodation(a: Attendee) {
    a.accommodation.Some? && a.accommodation.value != ""
  }

  /** The two-paragraph message that replaces an accommodation block: a
      greeting with the attendee's name, the place in bold, then the
      confirmation request. */
  function AccommodationText(name: string, place: string): (r: string)
    ensures |r| == |Greeting| + |name| + |Thanks| + |StrongOpen + place + StrongClose| + |Confirmation|
    ensures r[..|Greeting|] == Greeting
    ensures OccursAt(r, name, |Greeting|)
    ensures OccursAt(r, Thanks, |Greeting| + |name|)
    ensures OccursAt(r, StrongOpen + place + StrongClose, |Greeting| + |name| + |Thanks|)
    ensures EndsWith(r, Confirmation)
  {
    var r := Greeting + name + Thanks + StrongOpen + place + StrongClose + Confirmation;
    MessageLayout(Greeting, name, Thanks, StrongOpen, place, StrongClose, Confirmation);
    r
  }

  /** Where each part of a seven-part message sits. */
  lemma MessageLayout(g: string, n: string, t: string, o: string, p: string, c: string, f: string)
    ensures var r := g + n + t + o + p + c + f;
      |r| == |g| + |n| + |t| + |o + p + c| + |f| && r[..|g|] == g &&
      OccursAt(r, n, |g|) && OccursAt(r, t, |g| + |n|) &&
      OccursAt(r, o + p + c, |g| + |n| + |t|) && EndsWith(r, f)
  {
    var r := g + n + t + o + p + c + f;
    assert r[..|g|] == g;
    assert r[|g|..|g| + |n|] == n;
    assert r[|g| + |n|..|g| + |n| + |t|] == t;
    var k := |g| + |n| + |t|;
    assert r[k..k + |o + p + c|] == o + p + c;
    assert r[|r| - |f|..] == f;
  }

  /** Every `{{ name }}` replaced by the attendee's name, literally: the
      template cut at its placeholders, left to right, and glued back with
      the name, which is never searched again. */
  function SubstituteName(template: string, name: string): (r: string)
    ensures r == Join(Split(template, NameToken), name)
    ensures Free(template, NameToken) ==> r == template
  {
    ReplaceAllIsSplitJoin(template, NameToken, name);
    ReplaceAll(template, NameToken, name)
  }

  /** The fallback branch: cut from `{% if accommodation %}` up to the
      coming-soon div (keeping the div), drop `{% else %}` and the
      whitespace after it, then drop every `{% endif %}`. */
  function ResolveFallback(s: string): string {
    var cut := SubSpan(s, IfToken, ComingSoonDiv, ComingSoonDiv);
    var noElse := DropSpaced(cut, ElseToken);
    ReplaceAll(noElse, EndifToken, "")
  }

  /** The page for attendee `a`. */
  function Render(template: string, a: Attendee): string {
    var named := SubstituteName(template, a.name);
    if HasAccommodation(a) then
      SubSpan(named, IfToken, EndifToken, AccommodationText(a.name, a.accommodation.value))
    else
      ResolveFallback(named)
  }

  /** Contains none of the four marker texts. */
  predicate Plain(s: string) {
    Free(s, IfToken) && Free(s, ElseToken) && Free(s, EndifToken) && Free(s, ComingSoonDiv)
  }

  /** The layout the fallback's cut is written for: text, the
      accommodation block (an if-part, then an else-part that opens with
      the coming-soon div), text. */
  function StandardTemplate(pre: string, yes: string, gap: string, soon: string, post: string): string {
    pre + (IfToken + (yes + (ElseToken + (gap + (ComingSoonDiv + (soon + (EndifToken + post)))))))
  }

  // Facts about the fixed marker texts: none occurs in another, and no
  // occurrence of one can run into or out of a copy of another.

  /** `m` opens with its only `{` or `<` and closes with its only `}` or `>`. */
  predicate Bracketed(m: string) {
    (forall k :: 0 < k < |m| ==> m[k] != '{' && m[k] != '<') &&
    (forall k :: 0 <= k < |m| - 1 ==> m[k] != '}' && m[k] != '>')
  }

  lemma IfTokenBracketed() ensures Bracketed(IfToken) {}
  lemma ElseTokenBracketed() ensures Bracketed(ElseToken) {}
  lemma EndifTokenBracketed() ensures Bracketed(EndifToken) {}
  lemma ComingSoonDivBracketed() ensures Bracketed(ComingSoonDiv) {}

  /** The opening and closing characters of each marker occur in no other
      position of any marker. */
  lemma MarkerEdges()
    ensures Bracketed(IfToken) && Bracketed(ElseToken) && Bracketed(EndifToken) && Bracketed(ComingSoonDiv)
  {
    IfTokenBracketed();
    ElseTokenBracketed();
    EndifTokenBracketed();
    ComingSoonDivBracketed();
  }

  /** No marker can run into or out of a copy of another (or itself). */
  lemma MarkersAreSafe(pat: string, m: string)
    requires pat in {IfToken, ElseToken, EndifToken, ComingSoonDiv}
    requires m in {IfToken, ElseToken, EndifToken, ComingSoonDiv}
    ensures EntrySafe(pat, m) && ExitSafe(m, pat)
  {
    MarkerEdges();
    assert m[0] in {'{', '<'} && m[|m| - 1] in {'}', '>'};
  }

  lemma MarkersAreDistinct()
    ensures Free(ElseToken, EndifToken) && Free(ComingSoonDiv, EndifToken)
    ensures Free(ElseToken, ComingSoonDiv)
    ensures Free(EndifToken, IfToken)
    ensures Free(ComingSoonDiv, ElseToken) && Free(EndifToken, ElseToken)
  {
    FreeByWitness(ElseToken, EndifToken, 4);
    FreeByWitness(ComingSoonDiv, EndifToken, 0);
    FreeByWitness(ElseToken, ComingSoonDiv, 0);
    FreeByWitness(EndifToken, IfToken, 3);
    FreeByWitness(ComingSoonDiv, ElseToken, 0);
    FreeByWitness(EndifToken, ElseToken, 4);
  }

  /** No marker holds the name placeholder, and the placeholder cannot run
      into or out of a marker. */
  lemma NameTokenIsSafe()
    ensures Free(IfToken, NameToken) && Free(ElseToken, NameToken)
    ensures Free(EndifToken, NameToken) && Free(ComingSoonDiv, NameToken)
    ensures EntrySafe(NameToken, IfToken) && ExitSafe(IfToken, NameToken)
    ensures EntrySafe(NameToken, ElseToken) && ExitSafe(ElseToken, NameToken)
    ensures EntrySafe(NameToken, EndifToken) && ExitSafe(EndifToken, NameToken)
    ensures EntrySafe(NameToken, ComingSoonDiv) && ExitSafe(ComingSoonDiv, NameToken)
  {
    NameTokenAbsent();
    NameTokenEdges();
  }

  lemma NameTokenAbsent()
    ensures Free(IfToken, NameToken) && Free(ElseToken, NameToken)
    ensures Free(EndifToken, NameToken) && Free(ComingSoonDiv, NameToken)
  {
    FreeByWitness(IfToken, NameToken, 1);
    FreeByWitness(ElseToken, NameToken, 1);
    FreeByWitness(EndifToken, NameToken, 1);
    FreeByWitness(ComingSoonDiv, NameToken, 0);
  }

  lemma NameTokenEdges()
    ensures EntrySafe(NameToken, IfToken) && ExitSafe(IfToken, NameToken)
    ensures EntrySafe(NameToken, ElseToken) && ExitSafe(ElseToken, NameToken)
    ensures EntrySafe(NameToken, EndifToken) && ExitSafe(EndifToken, NameToken)
    ensures EntrySafe(NameToken, ComingSoonDiv) && ExitSafe(ComingSoonDiv, NameToken)
  {
    NameTokenEdgesOf(IfToken);
    NameTokenEdgesOf(ElseToken);
    NameTokenEdgesOf(EndifToken);
    NameTokenEdgesOf(ComingSoonDiv);
  }

  /** A marker that opens with `{%` or `<d` and closes with `%}` or `">`
      cannot be entered or left by the name placeholder. */
  lemma NameTokenEdgesOf(m: string)
    requires |m| >= 2 && ((m[0] == '{' && m[1] == '%') || (m[0] == '<' && m[1] == 'd'))
    requires (m[|m| - 2] == '%' && m[|m| - 1] == '}') || (m[|m| - 2] == '"' && m[|m| - 1] == '>')
    ensures EntrySafe(NameToken, m) && ExitSafe(m, NameToken)
  {
  }

  /** Name substitution passes the markers of the standard layout through
      untouched and works on each piece between them separately. */
  lemma SubstituteStandard(pre: string, yes: string, gap: string, soon: string, post: string, name: string)
    ensures SubstituteName(StandardTemplate(pre, yes, gap, soon, post), name) ==
      StandardTemplate(SubstituteName(pre, name), SubstituteName(yes, name), SubstituteName(gap, name),
                       SubstituteName(soon, name), SubstituteName(post, name))
  {
    NameTokenIsSafe();
    var r := soon + (EndifToken + post);
    var q := gap + (ComingSoonDiv + r);
    var p := yes + (ElseToken + q);
    ReplaceAcross(soon, EndifToken, post, NameToken, name);
    ReplaceAcross(gap, ComingSoonDiv, r, NameToken, name);
    ReplaceAcross(yes, ElseToken, q, NameToken, name);
    ReplaceAcross(pre, IfToken, p, NameToken, name);
  }

  /** In `x + (m + z)` the first `m` is right after `x` when `x` has none and
      none can run into `m`. */
  lemma FirstAt(x: string, m: string, z: string)
    requires |m| > 0 && Free(x, m) && EntrySafe(m, m)
    ensures Find(x + (m + z), m) == Some(|x|)
  {
    var s := x + (m + z);
    EntryNoStraddle(x, m, z, m);
    NoneBeforeConcat(x, m + z, m);
    assert s[|x|..] == m + z;
    OccursShift(s, m, |x|, 0);
    PrefixIsOccurrence(m + z, m);
    FindFromIs(s, m, 0, |x|);
  }

  // The two branches on a block `I yes E gap D soon N` between `pre` and
  // `post`, for any marker texts I, E, D, N with the properties the real
  // markers have; instantiated below with the template's markers.

  /** A prefix without `I` is kept when an `I` follows it. */
  lemma SkipPlainPrefix(pre: string, I: string, t: string, close: string, rep: string)
    requires |I| > 0 && Free(pre, I) && EntrySafe(I, I)
    ensures SubSpan(pre + (I + t), I, close, rep) == pre + SubSpan(I + t, I, close, rep)
  {
    EntryNoStraddle(pre, I, t, I);
    NoneBeforeConcat(pre, I + t, I);
    SubSpanSkip(pre, I + t, I, close, rep);
  }

  /** In `yes E gap D soon N post` the first N is the one after `soon`. */
  lemma BlockCloses(yes: string, gap: string, soon: string, post: string, E: string, D: string, N: string)
    requires |N| > 0 && Free(yes, N) && Free(gap, N) && Free(soon, N) && Free(E, N) && Free(D, N)
    requires EntrySafe(N, N) && EntrySafe(N, E) && ExitSafe(E, N) && EntrySafe(N, D) && ExitSafe(D, N)
    ensures FindFrom(yes + (E + (gap + (D + (soon + (N + post))))), N, 0)
         == Some(|yes| + |E| + |gap| + |D| + |soon|)
    ensures (yes + (E + (gap + (D + (soon + (N + post))))))[|yes| + |E| + |gap| + |D| + |soon| + |N|..] == post
  {
    BlockClosesAt(yes, gap, soon, post, E, D, N);
    var t := yes + (E + (gap + (D + (soon + (N + post)))));
    assert t[|yes| + |E| + |gap| + |D| + |soon| + |N|..] == post;
  }

  lemma BlockClosesAt(yes: string, gap: string, soon: string, post: string, E: string, D: string, N: string)
    requires |N| > 0 && Free(yes, N) && Free(gap, N) && Free(soon, N) && Free(E, N) && Free(D, N)
    requires EntrySafe(N, N) && EntrySafe(N, E) && ExitSafe(E, N) && EntrySafe(N, D) && ExitSafe(D, N)
    ensures FindFrom(yes + (E + (gap + (D + (soon + (N + post))))), N, 0)
         == Some(|yes| + |E| + |gap| + |D| + |soon|)
  {
    var q := gap + (D + (soon + (N + post)));
    BlockClosesAfterDiv(gap, soon, post, D, N);
    FindAcross(yes, E, q, N, |gap| + |D| + |soon|);
  }

  lemma BlockClosesAfterDiv(gap: string, soon: string, post: string, D: string, N: string)
    requires |N| > 0 && Free(gap, N) && Free(soon, N) && Free(D, N)
    requires EntrySafe(N, N) && EntrySafe(N, D) && ExitSafe(D, N)
    ensures FindFrom(gap + (D + (soon + (N + post))), N, 0) == Some(|gap| + |D| + |soon|)
  {
    FirstAt(soon, N, post);
    FindAcross(gap, D, soon + (N + post), N, |soon|);
  }

  /** In `yes E gap D rest` the first D is the one after `gap`. */
  lemma BlockElseDiv(yes: string, gap: string, rest: string, E: string, D: string)
    requires |D| > 0 && Free(yes, D) && Free(gap, D) && Free(E, D)
    requires EntrySafe(D, D) && EntrySafe(D, E) && ExitSafe(E, D)
    ensures FindFrom(yes + (E + (gap + (D + rest))), D, 0) == Some(|yes| + |E| + |gap|)
    ensures (yes + (E + (gap + (D + rest))))[|yes| + |E| + |gap| + |D|..] == rest
  {
    var q := gap + (D + rest);
    FirstAt(gap, D, rest);
    FindAcross(yes, E, q, D, |gap|);
    assert (yes + (E + q))[|yes| + |E| + |gap| + |D|..] == rest;
  }

  lemma BlockAccommodation(pre: string, yes: string, gap: string, soon: string, post: string, text: string,
                           I: string, E: string, D: string, N: string)
    requires |I| > 0 && |N| > 0
    requires Free(pre, I) && Free(post, I) && Free(yes, N) && Free(gap, N) && Free(soon, N)
    requires Free(E, N) && Free(D, N)
    requires EntrySafe(I, I) && EntrySafe(N, N)
    requires EntrySafe(N, E) && ExitSafe(E, N) && EntrySafe(N, D) && ExitSafe(D, N)
    ensures SubSpan(pre + (I + (yes + (E + (gap + (D + (soon + (N + post))))))), I, N, text) == pre + (text + post)
  {
    var t := yes + (E + (gap + (D + (soon + (N + post)))));
    var L := |yes| + |E| + |gap| + |D| + |soon|;
    BlockCloses(yes, gap, soon, post, E, D, N);
    calc {
      SubSpan(pre + (I + t), I, N, text);
      { SkipPlainPrefix(pre, I, t, N, text); }  // the block opens right after `pre`
      pre + SubSpan(I + t, I, N, text);
      { SubSpanOpening(t, I, N, text, L); }     // and closes at the N after `soon`
      pre + (text + SubSpan(t[L + |N|..], I, N, text));
      { assert t[L + |N|..] == post; }
      pre + (text + SubSpan(post, I, N, text));
      { FindFree(post, I, 0); SubSpanNoOpen(post, I, N, text); }
      pre + (text + post);
    }
  }

  /** The text after the else-division, without I, is left alone by the cut. */
  lemma PlainTail(soon: string, post: string, I: string, N: string, D: string)
    requires |I| > 0 && Free(soon, I) && Free(post, I) && Free(N, I) && EntrySafe(I, N) && ExitSafe(N, I)
    ensures SubSpan(soon + (N + post), I, D, D) == soon + (N + post)
  {
    FreeAcross(soon, N, post, I);
    FindFree(soon + (N + post), I, 0);
    SubSpanNoOpen(soon + (N + post), I, D, D);
  }

  /** Step 1 of the fallback on such a block: the cut keeps D, and the
      text `w` after D is left alone when the cut leaves it alone. */
  lemma BlockCut(pre: string, yes: string, gap: string, w: string, I: string, E: string, D: string)
    requires |I| > 0 && |D| > 0
    requires Free(pre, I) && Free(yes, D) && Free(gap, D) && Free(E, D)
    requires EntrySafe(I, I) && EntrySafe(D, D) && EntrySafe(D, E) && ExitSafe(E, D)
    requires SubSpan(w, I, D, D) == w
    ensures SubSpan(pre + (I + (yes + (E + (gap + (D + w))))), I, D, D) == pre + (D + w)
  {
    var t := yes + (E + (gap + (D + w)));
    var L := |yes| + |E| + |gap|;
    BlockElseDiv(yes, gap, w, E, D);
    calc {
      SubSpan(pre + (I + t), I, D, D);
      { SkipPlainPrefix(pre, I, t, D, D); }
      pre + SubSpan(I + t, I, D, D);
      { SubSpanOpening(t, I, D, D, L); }
      pre + (D + SubSpan(t[L + |D|..], I, D, D));
      { assert t[L + |D|..] == w; }
      pre + (D + SubSpan(w, I, D, D));
      pre + (D + w);
    }
  }

  /** Steps 2 and 3 of the fallback on the cut text: nothing of E is left to
      drop, and the one N is dropped. */
  lemma BlockCleanup(pre: string, soon: string, post: string, E: string, D: string, N: string)
    requires |E| > 0 && |N| > 0
    requires Free(pre, E) && Free(soon, E) && Free(post, E) && Free(pre, N) && Free(soon, N) && Free(post, N)
    requires Free(D, E) && Free(N, E) && Free(D, N)
    requires EntrySafe(E, D) && ExitSafe(D, E) && EntrySafe(E, N) && ExitSafe(N, E)
    requires EntrySafe(N, D) && ExitSafe(D, N) && EntrySafe(N, N)
    ensures ReplaceAll(DropSpaced(pre + (D + (soon + (N + post))), E), N, "") == pre + (D + (soon + post))
  {
    var w := soon + (N + post);
    var cut := pre + (D + w);
    FreeAcross(soon, N, post, E);
    FreeAcross(pre, D, w, E);
    DropSpacedFree(cut, E);
    ReplaceAcross(pre, D, w, N, "");
    ReplaceAllFree(pre, N, "");
    EntryNoStraddle(soon, N, post, N);
    ReplaceAllConcat(soon, N + post, N, "");
    ReplaceAllFree(soon, N, "");
    PrefixIsOccurrence(N + post, N);
    assert (N + post)[|N|..] == post;
    ReplaceAllFree(post, N, "");
    assert ReplaceAll(N + post, N, "") == post;
  }

  /** On a name-substituted text of the standard layout whose pieces hold no
      marker, the accommodation branch replaces the whole block, from
      `{% if accommodation %}` to `{% endif %}`, by `text`. */
  lemma ResolveAccommodationStandard(pre: string, yes: string, gap: string, soon: string, post: string, text: string)
    requires Plain(pre) && Plain(yes) && Plain(gap) && Plain(soon) && Plain(post)
    ensures SubSpan(StandardTemplate(pre, yes, gap, soon, post), IfToken, EndifToken, text) == pre + (text + post)
  {
    MarkersAreDistinct();
    MarkersAreSafe(IfToken, IfToken);
    MarkersAreSafe(EndifToken, EndifToken);
    MarkersAreSafe(EndifToken, ElseToken);
    MarkersAreSafe(EndifToken, ComingSoonDiv);
    BlockAccommodation(pre, yes, gap, soon, post, text, IfToken, ElseToken, ComingSoonDiv, EndifToken);
  }

  /** On a name-substituted text of the standard layout whose pieces hold no
      marker, the fallback branch keeps the text around the block and the
      else-part from the coming-soon div on, and nothing of the markers. */
  lemma ResolveFallbackStandard(pre: string, yes: string, gap: string, soon: string, post: string)
    requires Plain(pre) && Plain(yes) && Plain(gap) && Plain(soon) && Plain(post)
    ensures ResolveFallback(StandardTemplate(pre, yes, gap, soon, post)) == pre + (ComingSoonDiv + (soon + post))
  {
    MarkersAreDistinct();
    MarkersAreSafe(IfToken, IfToken);
    MarkersAreSafe(ComingSoonDiv, ComingSoonDiv);
    MarkersAreSafe(ComingSoonDiv, ElseToken);
    MarkersAreSafe(IfToken, EndifToken);
    MarkersAreSafe(ElseToken, EndifToken);
    MarkersAreSafe(ElseToken, ComingSoonDiv);
    MarkersAreSafe(EndifToken, ComingSoonDiv);
    MarkersAreSafe(EndifToken, EndifToken);
    PlainTail(soon, post, IfToken, EndifToken, ComingSoonDiv);
    BlockCut(pre, yes, gap, soon + (EndifToken + post), IfToken, ElseToken, ComingSoonDiv);
    BlockCleanup(pre, soon, post, ElseToken, ComingSoonDiv, EndifToken);
  }

  // The renderer on whole templates.

  /** The page of an attendee with a (non-empty) accommodation, on the
      standard layout: the text around the block, name-substituted, with the
      whole block replaced by the accommodation message. `Plain` on all five
      pieces is one condition shared with the fallback lemma; this branch
      alone needs less (no if-marker outside the block, no endif-marker
      before its end). */
  lemma RenderStandardAccommodation(pre: string, yes: string, gap: string, soon: string, post: string, a: Attendee)
    requires HasAccommodation(a)
    requires Plain(SubstituteName(pre, a.name)) && Plain(SubstituteName(yes, a.name))
    requires Plain(SubstituteName(gap, a.name)) && Plain(SubstituteName(soon, a.name))
    requires Plain(SubstituteName(post, a.name))
    ensures Render(StandardTemplate(pre, yes, gap, soon, post), a) ==
      SubstituteName(pre, a.name) + (AccommodationText(a.name, a.accommodation.value) + SubstituteName(post, a.name))
  {
    SubstituteStandard(pre, yes, gap, soon, post, a.name);
    ResolveAccommodationStandard(SubstituteName(pre, a.name), SubstituteName(yes, a.name),
      SubstituteName(gap, a.name), SubstituteName(soon, a.name), SubstituteName(post, a.name),
      AccommodationText(a.name, a.accommodation.value));
  }

  /** The page of an attendee without an accommodation (key missing, null or
      empty), on the standard layout: the if-part and the else marker are
      gone, the else-part is kept from the coming-soon div on, and the endif
      marker is gone. `Plain` on all five pieces is a uniform sufficient
      condition, not the weakest one. */
  lemma RenderStandardFallback(pre: string, yes: string, gap: string, soon: string, post: string, a: Attendee)
    requires !HasAccommodation(a)
    requires Plain(SubstituteName(pre, a.name)) && Plain(SubstituteName(yes, a.name))
    requires Plain(SubstituteName(gap, a.name)) && Plain(SubstituteName(soon, a.name))
    requires Plain(SubstituteName(post, a.name))
    ensures Render(StandardTemplate(pre, yes, gap, soon, post), a) ==
      SubstituteName(pre, a.name) + (ComingSoonDiv + (SubstituteName(soon, a.name) + SubstituteName(post, a.name)))
  {
    SubstituteStandard(pre, yes, gap, soon, post, a.name);
    ResolveFallbackStandard(SubstituteName(pre, a.name), SubstituteName(yes, a.name),
      SubstituteName(gap, a.name), SubstituteName(soon, a.name), SubstituteName(post, a.name));
  }

  /** With an accommodation, a name-substituted template with no
      `{% if accommodation %}`, or with no `{% endif %}` after its first one,
      is returned as it is. */
  lemma AccommodationUnmatched(template: string, a: Attendee)
    requires HasAccommodation(a)
    requires Find(SubstituteName(template, a.name), IfToken).None? ||
             FindFrom(SubstituteName(template, a.name), EndifToken,
                      Find(SubstituteName(template, a.name), IfToken).value + |IfToken|).None?
    ensures Render(template, a) == SubstituteName(template, a.name)
  {
    var named := SubstituteName(template, a.name);
    var text := AccommodationText(a.name, a.accommodation.value);
    match Find(named, IfToken)
    case None => SubSpanNoOpen(named, IfToken, EndifToken, text);
    case Some(i) => SubSpanUnclosed(named, IfToken, EndifToken, text, i);
  }

  /** A missing key, a null and an empty value all take the fallback
      branch: the page does not depend on which. */
  lemma EmptyAccommodationIsMissing(template: string, name: string, slug: string)
    ensures Render(template, Attendee(name, slug, Some(""))) == Render(template, Attendee(name, slug, None))
    ensures !HasAccommodation(Attendee(name, slug, Some(""))) && !HasAccommodation(Attendee(name, slug, None))
  {
  }

  /** A template with no name placeholder and no marker comes out unchanged,
      whatever the attendee. */
  lemma RenderPassThrough(template: string, a: Attendee)
    requires Free(template, NameToken) && Plain(template)
    ensures Render(template, a) == template
  {
    ReplaceAllFree(template, NameToken, a.name);
    FindFree(template, IfToken, 0);
    if HasAccommodation(a) {
      SubSpanNoOpen(template, IfToken, EndifToken, AccommodationText(a.name, a.accommodation.value));
    } else {
      SubSpanNoOpen(template, IfToken, ComingSoonDiv, ComingSoonDiv);
      DropSpacedFree(template, ElseToken);
      ReplaceAllFree(template, EndifToken, "");
    }
  }

  /** An endif marker with another one inside it. */
  const NestedEndif: string := "{% end" + (EndifToken + "if %}")

  lemma NestedEndifPlain()
    ensures Free(NestedEndif, NameToken) && Free(NestedEndif, IfToken) && Free(NestedEndif, ElseToken)
  {
    NameTokenIsSafe();
    MarkersAreDistinct();
    MarkersAreSafe(IfToken, EndifToken);
    MarkersAreSafe(ElseToken, EndifToken);
    FreeAcross("{% end", EndifToken, "if %}", NameToken);
    FreeAcross("{% end", EndifToken, "if %}", IfToken);
    FreeAcross("{% end", EndifToken, "if %}", ElseToken);
  }

  lemma NestedEndifDeletes()
    ensures ReplaceAll(NestedEndif, EndifToken, "") == EndifToken
  {
    MarkersAreSafe(EndifToken, EndifToken);
    DeleteShortAround("{% end", EndifToken, "if %}");
  }

  /** The endif markers are removed in one pass, so deleting one can join
      the text around it into a new one: without an accommodation, this
      template renders to an endif marker. */
  lemma EndifSinglePass(a: Attendee)
    requires !HasAccommodation(a)
    ensures Render(NestedEndif, a) == EndifToken
  {
    var s := NestedEndif;
    NestedEndifPlain();
    NestedEndifDeletes();
    FindFree(s, IfToken, 0);
    SubSpanNoOpen(s, IfToken, ComingSoonDiv, ComingSoonDiv);
    DropSpacedFree(s, ElseToken);
  }

  /** Deleting the one `m` between two texts shorter than it. */
  lemma DeleteShortAround(x: string, m: string, z: string)
    requires |x| < |m| && |z| < |m| && EntrySafe(m, m)
    ensures ReplaceAll(x + (m + z), m, "") == x + z
  {
    assert Free(x, m) && Free(z, m);
    EntryNoStraddle(x, m, z, m);
    NoneBeforeConcat(x, m + z, m);
    ReplaceAllSkip(x, m + z, m, "");
    DeleteLeading(m, z);
    ReplaceAllFree(z, m, "");
  }

  /** A leading `m` is deleted and the scan goes on after it. */
  lemma DeleteLeading(m: string, z: string)
    requires |m| > 0
    ensures ReplaceAll(m + z, m, "") == ReplaceAll(z, m, "")
  {
    assert m <= m + z;
    assert (m + z)[|m|..] == z;
  }
}
