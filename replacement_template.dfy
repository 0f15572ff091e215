/** How `re.sub` reads its replacement argument.  A replacement string is
    not inserted as it is: it is a template in which backslash escapes are
    interpreted and group references are expanded.  The accommodation
    branch hands `re.sub` a message built from the attendee's name and
    accommodation value, so a backslash in either is interpreted as an
    escape.  `RenderAsWritten` is the renderer with this behaviour;
    `Renderer.Render` inserts the message literally, as the surrounding code
    evidently means to (the name placeholder is filled in by plain
    `str.replace`). */
module ReplacementTemplate {
  import opened TextSearch
  import opened Splice
  import opened Renderer

  /** One part of a parsed replacement: a character, or the whole match
      (`\g<0>`). */
  datatype Piece = Lit(c: char) | Whole

  predicate NoBackslash(s: string) {
    forall k :: 0 <= k < |s| ==> s[k] != '\\'
  }

  predicate IsAsciiLetter(c: char) {
    'a' <= c <= 'z' || 'A' <= c <= 'Z'
  }

  predicate IsAsciiDigit(c: char) {
    '0' <= c <= '9'
  }

  predicate IsOctalDigit(c: char) {
    '0' <= c <= '7'
  }

  function OctalDigit(c: char): (d: nat)
    requires IsOctalDigit(c)
    ensures d < 8
  {
    c as int - '0' as int
  }

  /** The one-character escapes of a replacement template. */
  function SimpleEscape(c: char): Option<char> {
    match c
    case 'a' => Some(7 as char)
    case 'b' => Some(8 as char)
    case 'f' => Some(12 as char)
    case 'n' => Some('\n')
    case 'r' => Some('\r')
    case 't' => Some('\t')
    case 'v' => Some(11 as char)
    case '\\' => Some('\\')
    case _ => None
  }

  /** Each character as a literal piece. */
  function Lits(s: string): (ps: seq<Piece>)
    ensures |ps| == |s| && forall k :: 0 <= k < |s| ==> ps[k] == Lit(s[k])
  {
    seq(|s|, k requires 0 <= k < |s| => Lit(s[k]))
  }

  function Prepend(ps: seq<Piece>, rest: Option<seq<Piece>>): Option<seq<Piece>> {
    match rest
    case None => None
    case Some(qs) => Some(ps + qs)
  }

  /** Index, in `s`, of the first `>`, if any. */
  function CloseAngle(s: string): (r: Option<nat>)
    ensures r.Some? ==> r.value < |s| && s[r.value] == '>' && forall k :: 0 <= k < r.value ==> s[k] != '>'
    ensures r.None? ==> forall k :: 0 <= k < |s| ==> s[k] != '>'
  {
    if |s| == 0 then None
    else if s[0] == '>' then Some(0)
    else match CloseAngle(s[1..])
      case None => None
      case Some(k) => Some(k + 1)
  }

  /** A group name in `\g<...>` that refers to group 0: a non-empty run of
      ASCII zeros.  The patterns here have no groups, so every other group
      reference is an error. */
  predicate NamesWholeMatch(name: string) {
    |name| > 0 && forall k :: 0 <= k < |name| ==> name[k] == '0'
  }

  /** The escape at the start of `t`, parsed for a pattern with no groups:
      the pieces it stands for and its length, or `None` where Python
      raises an error.
        - `\a \b \f \n \r \t \v \\` stand for one character;
        - `\0` with up to two more octal digits is that octal character code;
        - three octal digits after the backslash (the first not 0) are that
          code, an error above 0o377;
        - any other digit escape is a group reference, an error here;
        - `\g<0>` (any run of zeros) is the whole match, other `\g` forms
          are errors;
        - any other ASCII letter after a backslash is an error, and so is a
          backslash at the end;
        - a backslash before any other character is kept as it is. */
  function Escape(t: string): (r: Option<(seq<Piece>, nat)>)
    requires |t| > 0 && t[0] == '\\'
    ensures r.Some? ==> 2 <= r.value.1 <= |t|
  {
    if |t| == 1 then None
    else
      var c := t[1];
      if c == 'g' then
        if |t| > 2 && t[2] == '<' then
          match CloseAngle(t[3..])
          case None => None
          case Some(k) => if NamesWholeMatch(t[3..3 + k]) then Some(([Whole], k + 4)) else None
        else None
      else if c == '0' then
        if |t| > 2 && IsOctalDigit(t[2]) then
          if |t| > 3 && IsOctalDigit(t[3]) then
            Some(([Lit((OctalDigit(t[2]) * 8 + OctalDigit(t[3])) as char)], 4))
          else Some(([Lit(OctalDigit(t[2]) as char)], 3))
        else Some(([Lit(0 as char)], 2))
      else if IsAsciiDigit(c) then
        if |t| > 3 && IsOctalDigit(c) && IsOctalDigit(t[2]) && IsOctalDigit(t[3]) then
          var v := OctalDigit(c) * 64 + OctalDigit(t[2]) * 8 + OctalDigit(t[3]);
          if v > 255 then None else Some(([Lit(v as char)], 4))
        else None
      else if SimpleEscape(c).Some? then Some(([Lit(SimpleEscape(c).value)], 2))
      else if IsAsciiLetter(c) then None
      else Some(([Lit('\\'), Lit(c)], 2))
  }

  /** The replacement template `t` parsed for a pattern with no groups, or
      `None` where Python raises an error (on a bad escape anywhere in `t`,
      before any matching). */
  function ParseTemplate(t: string): (r: Option<seq<Piece>>)
    ensures NoBackslash(t) ==> r == Some(Lits(t))
    decreases |t|
  {
    if |t| == 0 then Some([])
    else if t[0] != '\\' then
      var rest := ParseTemplate(t[1..]);
      assert NoBackslash(t) ==> NoBackslash(t[1..]);
      assert NoBackslash(t) ==> [Lit(t[0])] + Lits(t[1..]) == Lits(t);
      Prepend([Lit(t[0])], rest)
    else
      match Escape(t)
      case None => None
      case Some((ps, n)) => Prepend(ps, ParseTemplate(t[n..]))
  }

  /** The text a parsed template stands for, where the match is `m`. */
  function Expand(ps: seq<Piece>, m: string): string {
    if |ps| == 0 then ""
    else (match ps[0] case Lit(c) => [c] case Whole => m) + Expand(ps[1..], m)
  }

  /** `SubSpan` with a parsed template: each match is replaced by the
      template expanded for that match. */
  function SubSpanTemplate(s: string, open: string, close: string, ps: seq<Piece>): string
    requires |open| > 0
    decreases |s|
  {
    if |s| == 0 then ""
    else if open <= s then
      match FindFrom(s, close, |open|)
      case None => s
      case Some(j) => Expand(ps, s[..j + |close|]) + SubSpanTemplate(s[j + |close|..], open, close, ps)
    else [s[0]] + SubSpanTemplate(s[1..], open, close, ps)
  }

  /** The renderer as written: the accommodation message goes through
      template parsing, which can change it or raise an error (`None`).
      The fallback branch's replacements hold no backslash, so they are
      inserted as they are. */
  function RenderAsWritten(template: string, a: Attendee): Option<string> {
    var named := SubstituteName(template, a.name);
    if HasAccommodation(a) then
      match ParseTemplate(AccommodationText(a.name, a.accommodation.value))
      case None => None
      case Some(ps) => Some(SubSpanTemplate(named, IfToken, EndifToken, ps))
    else Some(ResolveFallback(named))
  }

  /** Literal pieces expand to their characters, whatever the match. */
  lemma {:induction false} ExpandLits(s: string, m: string)
    ensures Expand(Lits(s), m) == s
    decreases |s|
  {
    if |s| > 0 {
      assert Lits(s)[1..] == Lits(s[1..]);
      ExpandLits(s[1..], m);
      assert [s[0]] + s[1..] == s;
    }
  }

  lemma PrependPrepend(ps: seq<Piece>, qs: seq<Piece>, rest: Option<seq<Piece>>)
    ensures Prepend(ps, Prepend(qs, rest)) == Prepend(ps + qs, rest)
  {
    match rest
    case None =>
    case Some(r) => assert ps + (qs + r) == ps + qs + r;
  }

  /** A character other than a backslash stands for itself. */
  lemma ParsePlainHead(t: string)
    requires |t| > 0 && t[0] != '\\'
    ensures ParseTemplate(t) == Prepend([Lit(t[0])], ParseTemplate(t[1..]))
  {
  }

  /** A backslash-free prefix parses to its characters. */
  lemma {:induction false} ParseConcat(x: string, y: string)
    requires NoBackslash(x)
    ensures ParseTemplate(x + y) == Prepend(Lits(x), ParseTemplate(y))
    decreases |x|
  {
    if |x| == 0 {
      assert x + y == y;
      assert Lits(x) == [];
      match ParseTemplate(y)
      case None =>
      case Some(qs) => assert [] + qs == qs;
    } else {
      var s := x + y;
      assert s[0] == x[0] && s[1..] == x[1..] + y;
      ParsePlainHead(s);
      assert NoBackslash(x[1..]);
      ParseConcat(x[1..], y);
      PrependPrepend([Lit(x[0])], Lits(x[1..]), ParseTemplate(y));
      assert [Lit(x[0])] + Lits(x[1..]) == Lits(x);
    }
  }

  /** With literal pieces only, template substitution is the literal one. */
  lemma {:induction false} SubSpanTemplateLits(s: string, open: string, close: string, rep: string)
    requires |open| > 0
    ensures SubSpanTemplate(s, open, close, Lits(rep)) == SubSpan(s, open, close, rep)
    decreases |s|
  {
    if |s| > 0 {
      if open <= s {
        match FindFrom(s, close, |open|)
        case None =>
        case Some(j) =>
          ExpandLits(rep, s[..j + |close|]);
          SubSpanTemplateLits(s[j + |close|..], open, close, rep);
      } else {
        SubSpanTemplateLits(s[1..], open, close, rep);
      }
    }
  }

  /** The fixed parts of the accommodation message hold no backslash. */
  lemma MessageTextNoBackslash()
    ensures NoBackslash(Greeting) && NoBackslash(Thanks) && NoBackslash(StrongOpen)
    ensures NoBackslash(StrongClose) && NoBackslash(Confirmation)
  {
    ThanksNoBackslash();
    NoBackslashConcat("</p>\n        <p>Please let us ", "know if this is okay for you.</p>");
  }

  lemma ThanksNoBackslash()
    ensures NoBackslash(Thanks)
  {
    var t1, t2, t3 := "! Thanks again for joining, we look ", "forward to having you here. You ", "should have received a personal ";
    var t4, t5, t6 := "message from us regarding your ", "accommodation. We have planned ", "you at: ";
    NoBackslashConcat(t1, t2);
    NoBackslashConcat(t1 + t2, t3);
    NoBackslashConcat(t1 + t2 + t3, t4);
    NoBackslashConcat(t1 + t2 + t3 + t4, t5);
    NoBackslashConcat(t1 + t2 + t3 + t4 + t5, t6);
  }

  lemma NoBackslashConcat(x: string, y: string)
    requires NoBackslash(x) && NoBackslash(y)
    ensures NoBackslash(x + y)
  {
    forall k | 0 <= k < |x + y| ensures (x + y)[k] != '\\' {
      if k >= |x| {
        assert (x + y)[k] == y[k - |x|];
      }
    }
  }

  /** The message holds a backslash only where the name or the place does. */
  lemma AccommodationTextNoBackslash(name: string, place: string)
    requires NoBackslash(name) && NoBackslash(place)
    ensures NoBackslash(AccommodationText(name, place))
  {
    MessageTextNoBackslash();
    NoBackslashConcat(Greeting, name);
    NoBackslashConcat(Greeting + name, Thanks);
    NoBackslashConcat(Greeting + name + Thanks, StrongOpen);
    NoBackslashConcat(Greeting + name + Thanks + StrongOpen, place);
    NoBackslashConcat(Greeting + name + Thanks + StrongOpen + place, StrongClose);
    NoBackslashConcat(Greeting + name + Thanks + StrongOpen + place + StrongClose, Confirmation);
  }

  /** The renderer as written and the literal renderer agree on every
      attendee without a non-empty accommodation value, whose name never
      reaches a replacement template, and on every other attendee whose name
      and accommodation value hold no backslash. */
  lemma RenderAsWrittenAgrees(template: string, a: Attendee)
    requires HasAccommodation(a) ==> NoBackslash(a.name) && NoBackslash(a.accommodation.value)
    ensures RenderAsWritten(template, a) == Some(Render(template, a))
  {
    if HasAccommodation(a) {
      var text := AccommodationText(a.name, a.accommodation.value);
      AccommodationTextNoBackslash(a.name, a.accommodation.value);
      SubSpanTemplateLits(SubstituteName(template, a.name), IfToken, EndifToken, text);
    }
  }

  /** Regrouping a seven-part message around a split of its fifth part,
      stated over plain parameters so that the message's literal parts stay
      opaque terms to the solver. */
  lemma MessageSplit(g: string, n: string, t: string, o: string, a: string, b: string, c: string, sc: string, f: string)
    ensures g + n + t + o + (a + b + c) + sc + f == (g + n + t + o + a) + (b + (c + sc + f))
  {
  }

  /** A `\n` escape between backslash-free texts stands for a line break. */
  lemma ParseNewline(x: string, y: string)
    requires NoBackslash(x) && NoBackslash(y)
    ensures ParseTemplate(x + ("\\n" + y)) == Some(Lits(x + ("\n" + y)))
  {
    ParseConcat(x, "\\n" + y);
    ParseNewlineHead(y);
    LitsConcat(x, "\n" + y);
    LitsConcat("\n", y);
  }

  lemma ParseNewlineHead(y: string)
    ensures ParseTemplate("\\n" + y) == Prepend(Lits("\n"), ParseTemplate(y))
  {
    var t := "\\n" + y;
    assert t[0] == '\\' && t[1] == 'n' && t[2..] == y;
    assert Escape(t) == Some(([Lit('\n')], 2));
    assert Lits("\n") == [Lit('\n')];
  }

  lemma LitsConcat(x: string, y: string)
    ensures Lits(x + y) == Lits(x) + Lits(y)
  {
  }

  /** A `\d` escape after a backslash-free text is an error. */
  lemma ParseBadEscape(x: string, y: string)
    requires NoBackslash(x)
    ensures ParseTemplate(x + ("\\d" + y)).None?
  {
    ParseConcat(x, "\\d" + y);
    ParseBadEscapeHead(y);
  }

  lemma ParseBadEscapeHead(y: string)
    ensures ParseTemplate("\\d" + y).None?
  {
    var t := "\\d" + y;
    assert t[0] == '\\' && t[1] == 'd';
    assert Escape(t).None?;
  }

  /** The message up to the place's first two characters holds no backslash. */
  lemma MessageHeadNoBackslash(name: string, p: string)
    requires NoBackslash(name) && NoBackslash(p)
    ensures NoBackslash(Greeting + name + Thanks + StrongOpen + p)
  {
    MessageTextNoBackslash();
    NoBackslashConcat(Greeting, name);
    NoBackslashConcat(Greeting + name, Thanks);
    NoBackslashConcat(Greeting + name + Thanks, StrongOpen);
    NoBackslashConcat(Greeting + name + Thanks + StrongOpen, p);
  }

  /** The place `C:\new`: as written, its `\n` becomes a line break in every
      accommodation message, so the page shows a different place. */
  lemma BackslashRewritesPlace(template: string, name: string, slug: string)
    requires NoBackslash(name)
    ensures RenderAsWritten(template, Attendee(name, slug, Some("C:\\new"))) ==
      Some(SubSpan(SubstituteName(template, name), IfToken, EndifToken, AccommodationText(name, "C:\new")))
    ensures Render(template, Attendee(name, slug, Some("C:\\new"))) ==
      SubSpan(SubstituteName(template, name), IfToken, EndifToken, AccommodationText(name, "C:\\new"))
    ensures AccommodationText(name, "C:\new") != AccommodationText(name, "C:\\new")
  {
    var x := Greeting + name + Thanks + StrongOpen + "C:";
    var y := "ew" + StrongClose + Confirmation;
    MessageHeadNoBackslash(name, "C:");
    MessageTextNoBackslash();
    NoBackslashConcat("ew", StrongClose);
    NoBackslashConcat("ew" + StrongClose, Confirmation);
    assert "C:\\new" == "C:" + "\\n" + "ew" && "C:\new" == "C:" + "\n" + "ew";
    MessageSplit(Greeting, name, Thanks, StrongOpen, "C:", "\\n", "ew", StrongClose, Confirmation);
    MessageSplit(Greeting, name, Thanks, StrongOpen, "C:", "\n", "ew", StrongClose, Confirmation);
    ParseNewline(x, y);
    SubSpanTemplateLits(SubstituteName(template, name), IfToken, EndifToken, AccommodationText(name, "C:\new"));
  }

  /** The place `D:\data`: as written, `\d` is a bad escape, so rendering
      raises an error for any template. */
  lemma BadEscapeRaises(template: string, name: string, slug: string)
    requires NoBackslash(name)
    ensures RenderAsWritten(template, Attendee(name, slug, Some("D:\\data"))).None?
  {
    MessageHeadNoBackslash(name, "D:");
    assert "D:\\data" == "D:" + "\\d" + "ata";
    MessageSplit(Greeting, name, Thanks, StrongOpen, "D:", "\\d", "ata", StrongClose, Confirmation);
    ParseBadEscape(Greeting + name + Thanks + StrongOpen + "D:", "ata" + StrongClose + Confirmation);
  }
}
