# Attendee page generator, modelled in Dafny

The generator builds one personal HTML page per attendee from a shared
template. It works in two steps:

- **Rendering.** The renderer first replaces every `{{ name }}` with the
  attendee's name. It then resolves the accommodation block in one of two
  ways:
  - An attendee with a non-empty accommodation value gets the whole block,
    from `{% if accommodation %}` to the first `{% endif %}` after it,
    replaced by a two-paragraph message. The message names the attendee and
    shows the place in bold.
  - Any other attendee gets the fallback. It cuts from `{% if accommodation %}`
    up to the coming-soon `<div>`, keeping the div. It then deletes
    `{% else %}` together with the whitespace after it, and deletes every
    `{% endif %}`.
- **Generation.** The generator loop renders each attendee's page in order
  and writes it to `p/<slug>/index.html`. It counts the pages as it goes.

The project has five modules:

- **`TextSearch`** (`text_search.dfy`) models literal search and Python's
  `str.replace`. `ReplaceAll` is one left-to-right pass over the
  non-overlapping occurrences of a pattern, and it never rescans the text
  it inserts. It is specified against a split/join reference definition.
- **`Splice`** (`splice.dfy`) models the two regular-expression
  substitutions the renderer uses, written out for their fixed patterns:
  - `SubSpan` is `open.*?close` with `DOTALL`: each span from an `open` to
    the nearest `close` after it is replaced.
  - `DropSpaced` is `tok\s*`. Here `\s` is exactly the set of characters
    for which Python's `str.isspace` holds.
- **`Renderer`** (`render.dfy`) holds the attendee record, the marker
  texts, the accommodation message, and `Render` itself. It proves what
  each branch does to a template laid out the way the fallback's cut at
  generate_pages.py:38-44 is written for (`StandardTemplate`: an if-part,
  then an else-part opening with the coming-soon div), and where the code
  behaves other than one might expect.
- **`ReplacementTemplate`** (`replacement_template.dfy`) models how
  `re.sub` reads its replacement argument: as a template with backslash
  escapes and group references. `RenderAsWritten` is the renderer with
  that behaviour (see Findings).
- **`Pages`** (`pages.dfy`) models the generator loop as a method over a
  file system modelled as a map from path to contents. The loop invariant
  ties its state to the writes made so far. `GeneratePages` renders with
  the literal renderer; `GeneratePagesAsWritten` renders with
  `RenderAsWritten` and stops at the first error, as the code does.

Behaviour worth knowing:

- **Two branches only.** An attendee either has a non-empty accommodation
  value or gets the fallback; no other attendee field is read besides the
  name and the slug.
- **No `{{ accommodation }}` placeholder.** The docstring at
  generate_pages.py:24 says the renderer replaces `{{ name }}` and
  `{{ accommodation }}`. The code replaces only `{{ name }}`; the place
  reaches the page only through the message that replaces the whole
  accommodation block. The model follows the code.
- **Endif markers can remain.** The endif markers are removed in a single
  pass, so a rendered page can still hold one (`Renderer.EndifSinglePass`).
- **Substitution order.** Name substitution happens before any marker
  handling. A name that contains a marker therefore takes part in it.
  `RenderStandardAccommodation` and `RenderStandardFallback` require the
  name-substituted pieces to be free of markers for this reason.
- **Errors stop the loop.** As written, a bad escape in the name or the
  accommodation value of an attendee with a non-empty accommodation value
  makes rendering raise, and the generator stops there. The fallback branch
  never hands the name to `re.sub` as a template, so it cannot raise (`Pages.GeneratePagesAsWritten`; see Findings).

## Model

| member | source | states |
|---|---|---|
| TextSearch.FindFrom | generate_pages.py:31-36 | the result is an occurrence at or after the start index with none between; `None` exactly when no occurrence starts at or after it |
| TextSearch.Split | generate_pages.py:25 | at least one piece; the last piece holds no occurrence; every other piece is followed by its own first occurrence, so the cuts are leftmost and non-overlapping |
| TextSearch.SplitJoinRoundTrip | generate_pages.py:25 | joining the pieces of a split with the pattern gives the original string back |
| TextSearch.ReplaceAllIsSplitJoin | generate_pages.py:25 | replacement equals cutting at the leftmost non-overlapping occurrences and gluing with the replacement, which is never rescanned |
| TextSearch.ReplaceAllFree | generate_pages.py:25 | a string without the pattern is returned unchanged |
| TextSearch.ReplaceAllConcat | generate_pages.py:25 | replacement distributes over a concatenation when no occurrence straddles the seam |
| Splice.SkipSpace | generate_pages.py:46 | removes exactly the longest prefix of `str.isspace` characters: all removed characters are whitespace, and what is left is empty or starts with a non-space |
| Splice.SubSpanNoOpen | generate_pages.py:31-36 | a text without the opening marker is left unchanged |
| Splice.SubSpanUnclosed | generate_pages.py:31-36 | when the first opening marker has no closing marker after it, nothing matches and the text is unchanged |
| Splice.SubSpanFirstMatch | generate_pages.py:31-36 | the first match runs from the first opening marker to the nearest closing marker after it; the text before is kept and the scan resumes after the match |
| Splice.DropSpacedFree | generate_pages.py:45-49 | a text without `{% else %}` (any token) is unchanged |
| Splice.DropSpacedFirstMatch | generate_pages.py:45-49 | the first token and the whole whitespace run after it are deleted, the text before is kept, and the scan resumes at the first non-space character |
| Renderer.SubstituteName | generate_pages.py:25 | the result is the template cut at its `{{ name }}` placeholders and joined with the name; a template without the placeholder is unchanged |
| Renderer.AccommodationText | generate_pages.py:30 | the message starts with the greeting, then holds the name, the fixed thanks text, the place in bold and the confirmation paragraph, in that order and with nothing else: its length is the sum of theirs |
| Renderer.EmptyAccommodationIsMissing | generate_pages.py:28 | a missing or null accommodation and an empty one all take the fallback branch and give the same page |
| Renderer.SubstituteStandard | generate_pages.py:25 | name substitution passes the four markers of the standard layout through and works on each piece between them separately |
| Renderer.ResolveAccommodationStandard | generate_pages.py:31-36 | on the standard layout, the block from `{% if accommodation %}` to `{% endif %}` becomes the message; the text around it is kept |
| Renderer.ResolveFallbackStandard | generate_pages.py:39-54 | on the standard layout, the fallback keeps the text around the block and the else-part from the coming-soon div on; the if-part, `{% else %}` with its whitespace and `{% endif %}` are gone |
| Renderer.RenderStandardAccommodation | generate_pages.py:25-36 | the page of an attendee with an accommodation is the name-substituted text before the block, then the message, then the name-substituted text after it |
| Renderer.RenderStandardFallback | generate_pages.py:25-54 | the page of an attendee without an accommodation is the text before the block, then the coming-soon div with the rest of the else-part, then the text after the block |
| Renderer.AccommodationUnmatched | generate_pages.py:28-36 | for the literal-insertion renderer, with an accommodation, a name-substituted template with no `{% if accommodation %}`, or with no `{% endif %}` after its first one, only gets its name substituted |
| Renderer.RenderPassThrough | generate_pages.py:23-56 | for the literal-insertion renderer, a template with no placeholder and no marker comes out unchanged for every attendee |
| Renderer.EndifSinglePass | generate_pages.py:50-54 | endif markers are deleted in one pass, so without an accommodation `{% end{% endif %}if %}` renders to `{% endif %}` |
| ReplacementTemplate.ParseTemplate | generate_pages.py:31-36 | a replacement text with no backslash parses to its own characters, each inserted literally |
| ReplacementTemplate.SubSpanTemplateLits | generate_pages.py:31-36 | substitution with a template of literal characters is the literal substitution |
| ReplacementTemplate.AccommodationTextNoBackslash | generate_pages.py:30 | the message holds a backslash only where the name or the place does |
| ReplacementTemplate.RenderAsWrittenAgrees | generate_pages.py:25-54 | for an attendee without a non-empty accommodation value, whatever the name; and for one with such a value, when neither the name nor that value holds a backslash: the renderer as written raises no error and agrees with the literal renderer |
| ReplacementTemplate.ParseNewline | generate_pages.py:33 | a `\n` escape in the replacement text stands for a line break |
| ReplacementTemplate.ParseBadEscape | generate_pages.py:33 | a `\d` escape in the replacement text is an error |
| ReplacementTemplate.BackslashRewritesPlace | generate_pages.py:30-36 | for the place `C:\new`, the page as written shows a line break where the literal renderer shows `\n`, and the two messages differ |
| ReplacementTemplate.BadEscapeRaises | generate_pages.py:30-36 | for the place `D:\data`, the renderer as written raises an error, whatever the template |
| Pages.PagePath | generate_pages.py:69-76 | the path is `p/`, then the slug, then `/index.html` |
| Pages.PagePathInjective | generate_pages.py:69-76 | different slugs give different page paths |
| Pages.PagesFor | generate_pages.py:67-77 | one write per attendee |
| Pages.PagesForAt | generate_pages.py:67-77 | the k-th write goes to the k-th attendee's path and holds that attendee's rendered page |
| Pages.LastWrite | generate_pages.py:76-77 | `None` exactly when no write went to the path; otherwise the contents of the last write to it |
| Pages.LastWriteWins | generate_pages.py:76-77 | after the writes, each path holds the contents of its last write, and an unwritten path keeps its old contents or stays absent |
| Pages.WritePage | generate_pages.py:69-77 | one loop round: the write made is the attendee's page at `p/<slug>/index.html`, and the file system gains exactly that file |
| Pages.GeneratePages | generate_pages.py:66-82 | with the literal renderer: the count equals the number of attendees, the writes are the attendees' pages in order, and the final file system is the old one with those writes applied |
| Pages.PagesAsWritten | generate_pages.py:67-77 | one write per attendee when no attendee's page raises an error |
| Pages.PagesAsWrittenAt | generate_pages.py:67-77 | when no attendee's page raises, the k-th write of the loop as written goes to the k-th attendee's path `p/<slug>/index.html` and holds that attendee's page as written |
| Pages.WritePageAsWritten | generate_pages.py:69-77 | one loop round as written: nothing is written exactly when rendering raises; otherwise the attendee's page as written is added at `p/<slug>/index.html` and nothing else changes |
| Pages.GeneratePagesAsWritten | generate_pages.py:66-82 | the loop stops at the first attendee whose page raises an error: all earlier attendees render, `raised` holds exactly when the count falls short of the attendee list, the failing attendee is the one at the count, and the writes and the file system are those for the attendees before it |
| Pages.PagesAsWrittenAgree | generate_pages.py:66-82 | when no attendee with a non-empty accommodation value has a backslash in the name or in that value, no attendee's page raises and the loop as written makes exactly the literal renderer's writes |
| Pages.SiteHoldsEveryPage | generate_pages.py:66-79 | an attendee whose slug no later attendee shares finds their own rendered page at their path |
| Pages.SiteKeepsOtherFiles | generate_pages.py:66-79 | a file at any path other than an attendee's page path keeps its contents |

## Left out

- Reading the template file and the attendee JSON (generate_pages.py:13-21) is not modelled. The template and the attendee list are parameters.
- JSON values other than strings are left out. A missing or non-string `name` or `slug` is one example: the code raises an error or formats it as text. The accommodation value is a string, or absent (a null counts as absent).
- Directory creation (generate_pages.py:64, 70) is not modelled, because the file system is a map from path to contents with no directories.
- The progress output (generate_pages.py:80, 82) is not modelled. The count it prints is returned as `generated`.
- I/O failures are not modelled.
- Path normalisation is not modelled. A slug with `/` or `..` gives the literal path string, not the file the operating system would open.
- Regular expressions are not modelled in general. Only the four fixed patterns the renderer uses are written out.
- Group references written `\g<...>`: `ReplacementTemplate.Escape` accepts only a run of ASCII zeros there, as the name of group 0, and does not model Python-version differences in how that name is read. The other escapes follow Python 3.7 and later, as listed in its comment.
- Renderer.Render: inserts the accommodation message literally, which is the corrected behaviour of the Findings row. `RenderStandardAccommodation`, `AccommodationUnmatched` and `RenderPassThrough` are about `Render`. For an attendee with a non-empty accommodation value whose name or value holds a backslash, the code as written is `ReplacementTemplate.RenderAsWritten`. That renderer can change the page, or raise an error even on a template without markers (`ReplacementTemplate.BadEscapeRaises`). `ReplacementTemplate.RenderAsWrittenAgrees` says when the two agree.
- Pages.GeneratePages: renders every page with the literal-insertion renderer `Renderer.Render`, so it does not stop on a bad escape and writes `\n` where the code writes a line break. The loop as written, which stops at the first error, is `Pages.GeneratePagesAsWritten`.
- ReplacementTemplate.Escape: its contract states only the length bounds of an escape. What individual escapes stand for is stated by `ParseNewline` and `ParseBadEscape`.

## Findings

| source | as written | input that shows it | evidently intended | confidence | as-written member | corrected member |
|---|---|---|---|---|---|---|
| generate_pages.py:30-36 | the message built from the attendee's name and accommodation value is passed to `re.sub` as the replacement, which is a template: backslash escapes in it are interpreted, and a bad escape raises an error before any matching | accommodation `C:\new` puts a line break in place of `\n`; accommodation `D:\data` raises a bad-escape error and stops the generator | the message is inserted literally, as `str.replace` inserts the name on line 25 | not executed; follows from the documented template rules of `re.sub` | ReplacementTemplate.BackslashRewritesPlace | Renderer.RenderStandardAccommodation |
