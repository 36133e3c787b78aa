/** utils/chat.go: Para2Json up to the list of parts. Text is a sequence of runes. */
module Chat {
  import opened Common

  const SECTION := '\U{00A7}'

  datatype Style = Style(
    bold: bool, italic: bool, underlined: bool, strikethrough: bool, obfuscated: bool, color: string)

  const PLAIN := Style(false, false, false, false, false, "")

  /** One run of text in one style; `click` is the address an open_url event leads to. */
  datatype Part = Part(text: string, style: Style, click: Option<string>)

  /** The two regular expressions: the first address in a text, if any, and whether an address
      names a protocol. */
  datatype UrlSearch = UrlSearch(find: string -> Option<(nat, nat)>, hasProtocol: string -> bool) {
    /** All that is assumed: what is found is a non-empty part of the text. */
    ghost predicate Lawful() {
      forall s :: find(s).Some? ==> find(s).value.0 < find(s).value.1 <= |s|
    }
  }

  function ColorOf(mode: char, color: string): string {
    match mode
    case '0' => "black"
    case '1' => "dark_blue"
    case '2' => "dark_green"
    case '3' => "dark_aqua"
    case '4' => "dark_red"
    case '5' => "dark_purple"
    case '6' => "gold"
    case '7' => "gray"
    case '8' => "dark_gray"
    case '9' => "blue"
    case 'a' => "green"
    case 'A' => "green"
    case 'b' => "aqua"
    case 'B' => "aqua"
    case 'c' => "red"
    case 'C' => "red"
    case 'd' => "light_purple"
    case 'D' => "light_purple"
    case 'e' => "yellow"
    case 'E' => "yellow"
    case 'f' => "white"
    case 'F' => "white"
    case 'r' => if color != "white" && color != "" then "white" else color
    case 'R' => if color != "white" && color != "" then "white" else color
    case _ => color
  }

  /** The style after one code. Unknown codes reset the style and keep the color. */
  function After(style: Style, mode: char): Style {
    if mode == '{' then style
    else if mode == 'l' || mode == 'L' then style.(bold := true)
    else if mode == 'm' || mode == 'M' then style.(strikethrough := true)
    else if mode == 'n' || mode == 'N' then style.(underlined := true)
    else if mode == 'o' || mode == 'O' then style.(italic := true)
    else Style(false, false, false, false, style.obfuscated, ColorOf(mode, style.color))
  }

  // ---- what the text means ---------------------------------------------------------------

  /** Every character that is shown, with its style: the fold of the codes before it. A code is
      a section sign with the rune after it; a lone section sign at the end shows nothing. */
  function Styled(text: string, style: Style): seq<(char, Style)>
    decreases |text|
  {
    if text == [] then []
    else if text[0] != SECTION then [(text[0], style)] + Styled(text[1..], style)
    else if |text| == 1 then []
    else Styled(text[2..], After(style, text[1]))
  }

  /** The text without its codes. */
  function Stripped(text: string): string
    decreases |text|
  {
    if text == [] then []
    else if text[0] != SECTION then [text[0]] + Stripped(text[1..])
    else if |text| == 1 then []
    else Stripped(text[2..])
  }

  function Mark(text: string, style: Style): (r: seq<(char, Style)>)
    ensures |r| == |text|
  {
    if text == [] then [] else [(text[0], style)] + Mark(text[1..], style)
  }

  /** The characters of the parts, each in the style of its part. */
  function Shown(parts: seq<Part>): seq<(char, Style)> {
    if parts == [] then [] else Shown(parts[..|parts| - 1]) + Mark(parts[|parts| - 1].text, parts[|parts| - 1].style)
  }

  function TextOf(parts: seq<Part>): string {
    if parts == [] then [] else TextOf(parts[..|parts| - 1]) + parts[|parts| - 1].text
  }

  function Characters(s: seq<(char, Style)>): string {
    if s == [] then [] else [s[0].0] + Characters(s[1..])
  }

  lemma {:induction false} MarkConcat(a: string, b: string, style: Style)
    ensures Mark(a + b, style) == Mark(a, style) + Mark(b, style)
    decreases |a|
  {
    if a == [] {
      assert a + b == b;
    } else {
      assert (a + b)[1..] == a[1..] + b;
      MarkConcat(a[1..], b, style);
    }
  }

  lemma ShownAppend(parts: seq<Part>, p: Part)
    ensures Shown(parts + [p]) == Shown(parts) + Mark(p.text, p.style)
  {
    assert (parts + [p])[..|parts|] == parts;
  }

  lemma {:induction false} CharactersConcat(a: seq<(char, Style)>, b: seq<(char, Style)>)
    ensures Characters(a + b) == Characters(a) + Characters(b)
    decreases |a|
  {
    if a == [] {
      assert a + b == b;
    } else {
      assert (a + b)[1..] == a[1..] + b;
      CharactersConcat(a[1..], b);
    }
  }

  lemma {:induction false} CharactersOfMark(text: string, style: Style)
    ensures Characters(Mark(text, style)) == text
  {
    if text != [] {
      assert Mark(text, style)[1..] == Mark(text[1..], style);
      CharactersOfMark(text[1..], style);
    }
  }

  lemma {:induction false} CharactersOfShown(parts: seq<Part>)
    ensures Characters(Shown(parts)) == TextOf(parts)
    decreases |parts|
  {
    if parts != [] {
      var init, last := parts[..|parts| - 1], parts[|parts| - 1];
      CharactersOfShown(init);
      CharactersConcat(Shown(init), Mark(last.text, last.style));
      CharactersOfMark(last.text, last.style);
    }
  }

  lemma {:induction false} CharactersOfStyled(text: string, style: Style)
    ensures Characters(Styled(text, style)) == Stripped(text)
    decreases |text|
  {
    if text != [] {
      if text[0] != SECTION {
        assert Styled(text, style)[1..] == Styled(text[1..], style);
        CharactersOfStyled(text[1..], style);
      } else if |text| > 1 {
        CharactersOfStyled(text[2..], After(style, text[1]));
      }
    }
  }

  /** Parts that show a text in its styles hold, one after another, the text without codes. */
  lemma PartsHoldStrippedText(text: string, parts: seq<Part>)
    requires Shown(parts) == Styled(text, PLAIN)
    ensures TextOf(parts) == Stripped(text)
  {
    CharactersOfShown(parts);
    CharactersOfStyled(text, PLAIN);
  }

  // ---- which code does what --------------------------------------------------------------

  /** The runes behind the section signs. */
  function Codes(text: string): string
    decreases |text|
  {
    if text == [] then []
    else if text[0] != SECTION then Codes(text[1..])
    else if |text| == 1 then []
    else [text[1]] + Codes(text[2..])
  }

  /** The text does not end inside a code. */
  predicate Complete(text: string)
    decreases |text|
  {
    if text == [] then true
    else if text[0] != SECTION then Complete(text[1..])
    else |text| > 1 && Complete(text[2..])
  }

  function Folded(codes: string, style: Style): Style {
    if codes == [] then style else After(Folded(codes[..|codes| - 1], style), codes[|codes| - 1])
  }

  lemma {:induction false} FoldedFront(code: char, codes: string, style: Style)
    ensures Folded([code] + codes, style) == Folded(codes, After(style, code))
    decreases |codes|
  {
    hide After;
    var all := [code] + codes;
    if codes == [] {
      assert all[..0] == [];
    } else {
      assert all[..|all| - 1] == [code] + codes[..|codes| - 1];
      FoldedFront(code, codes[..|codes| - 1], style);
    }
  }

  /** Every character is shown in the style of the codes before it. */
  lemma {:induction false} CharacterStyle(a: string, c: char, b: string, style: Style)
    requires Complete(a) && c != SECTION
    ensures var now := Folded(Codes(a), style);
      Styled(a + [c] + b, style) == Styled(a, style) + [(c, now)] + Styled(b, now)
    decreases |a|
  {
    hide After;
    var text := a + [c] + b;
    if a == [] {
      assert text[1..] == b;
    } else if a[0] != SECTION {
      assert text[1..] == a[1..] + [c] + b;
      CharacterStyle(a[1..], c, b, style);
    } else {
      assert text[2..] == a[2..] + [c] + b && text[1] == a[1];
      CharacterStyle(a[2..], c, b, After(style, a[1]));
      FoldedFront(a[1], Codes(a[2..]), style);
    }
  }

  const COLOR_NAMES := [
    "black", "dark_blue", "dark_green", "dark_aqua", "dark_red", "dark_purple", "gold", "gray",
    "dark_gray", "blue", "green", "aqua", "red", "light_purple", "yellow", "white"]

  predicate IsColor(code: char) {
    '0' <= code <= '9' || 'a' <= code <= 'f' || 'A' <= code <= 'F'
  }

  /** The sixteen colors by their hexadecimal digit, in either case. */
  function ColorName(code: char): string
    requires IsColor(code)
  {
    COLOR_NAMES[if code <= '9' then code as int - 48 else if code <= 'F' then code as int - 55 else code as int - 87]
  }

  /** One of these codes was given, and none after it that resets styles. */
  predicate InForce(codes: string, on: set<char>) {
    exists i :: 0 <= i < |codes| && codes[i] in on &&
      forall j :: i < j < |codes| ==> codes[j] in {'l', 'L', 'm', 'M', 'n', 'N', 'o', 'O', '{'}
  }

  /** Code i is the last that has to do with colors. */
  predicate LastColor(codes: string, i: int) {
    && 0 <= i < |codes|
    && forall j :: i < j < |codes| ==> !IsColor(codes[j]) && codes[j] != 'r' && codes[j] != 'R'
  }

  lemma InForceAppend(codes: string, code: char, on: set<char>)
    ensures InForce(codes + [code], on) <==>
      code in on || (code in {'l', 'L', 'm', 'M', 'n', 'N', 'o', 'O', '{'} && InForce(codes, on))
  {
    var all := codes + [code];
    if code in on {
      assert all[|codes|] in on;
    }
    if InForce(codes, on) && code in {'l', 'L', 'm', 'M', 'n', 'N', 'o', 'O', '{'} {
      var i :| 0 <= i < |codes| && codes[i] in on &&
        forall j :: i < j < |codes| ==> codes[j] in {'l', 'L', 'm', 'M', 'n', 'N', 'o', 'O', '{'};
      assert all[i] in on;
    }
    if InForce(all, on) && code !in on {
      var i :| 0 <= i < |all| && all[i] in on &&
        forall j :: i < j < |all| ==> all[j] in {'l', 'L', 'm', 'M', 'n', 'N', 'o', 'O', '{'};
      assert codes[i] in on && all[|codes|] == code;
      assert forall j :: i < j < |codes| ==> codes[j] == all[j];
    }
  }

  /** What any codes amount to: a style is on if its code was given and nothing has reset it since;
      nothing is obfuscated. */
  lemma {:induction false} StyleOfCodes(codes: string)
    ensures var style := Folded(codes, PLAIN);
      && (style.bold <==> InForce(codes, {'l', 'L'}))
      && (style.strikethrough <==> InForce(codes, {'m', 'M'}))
      && (style.underlined <==> InForce(codes, {'n', 'N'}))
      && (style.italic <==> InForce(codes, {'o', 'O'}))
      && !style.obfuscated
    decreases |codes|
  {
    hide InForce, ColorOf;
    if codes == [] {
      NothingInForce();
    } else {
      var before, code := codes[..|codes| - 1], codes[|codes| - 1];
      assert codes == before + [code];
      StyleOfCodes(before);
      InForceAppend(before, code, {'l', 'L'});
      InForceAppend(before, code, {'m', 'M'});
      InForceAppend(before, code, {'n', 'N'});
      InForceAppend(before, code, {'o', 'O'});
    }
  }

  lemma NothingInForce()
    ensures forall on :: !InForce([], on)
  {
  }

  /** The color is that of the last color code; a reset after any color makes it white, and without
      a color there is none. */
  lemma {:induction false} ColorOfCodes(codes: string)
    ensures var color := Folded(codes, PLAIN).color;
      && (color == "" <==> forall i :: 0 <= i < |codes| ==> !IsColor(codes[i]))
      && (forall i :: LastColor(codes, i) && IsColor(codes[i]) ==> color == ColorName(codes[i]))
      && ((exists i, h :: LastColor(codes, i) && codes[i] in {'r', 'R'} && 0 <= h < i && IsColor(codes[h]))
          ==> color == "white")
    decreases |codes|
  {
    if codes != [] {
      var before, code := codes[..|codes| - 1], codes[|codes| - 1];
      ColorOfCodes(before);
      ColorStep(Folded(before, PLAIN), code);
      hide After, IsColor, ColorName;
      forall i | LastColor(codes, i) && i < |before| ensures LastColor(before, i) {
        assert !IsColor(codes[|before|]);
      }
      assert codes == before + [code];
    }
  }

  lemma ColorStep(style: Style, code: char)
    ensures After(style, code).color ==
      if IsColor(code) then ColorName(code)
      else if code in {'r', 'R'} && style.color != "" then "white"
      else style.color
    ensures IsColor(code) ==> ColorName(code) != "" && code !in {'r', 'R'}
  {
    DigitColor(code, style.color);
    LowerColor(code, style.color);
    UpperColor(code, style.color);
    NoColor(code, style.color);
    hide ColorOf, ColorName;
  }

  lemma DigitColor(code: char, color: string)
    ensures '0' <= code <= '9' ==> ColorOf(code, color) == ColorName(code) != ""
  {
  }

  lemma LowerColor(code: char, color: string)
    ensures 'a' <= code <= 'f' ==> ColorOf(code, color) == ColorName(code) != ""
  {
  }

  lemma UpperColor(code: char, color: string)
    ensures 'A' <= code <= 'F' ==> ColorOf(code, color) == ColorName(code) != ""
  {
  }

  lemma NoColor(code: char, color: string)
    ensures !IsColor(code) ==>
      ColorOf(code, color) == if code in {'r', 'R'} && color != "" then "white" else color
  {
    hide ColorName;
  }

  // ---- which parts there are -------------------------------------------------------------

  /** The parts of a run of text: the address in the middle, if there is one, can be clicked. */
  function Closed(urls: UrlSearch, buf: string, style: Style): seq<Part> {
    match urls.find(buf)
    case None => Piece(buf, style)
    case Some((a, b)) =>
      if a < b <= |buf| then
        Piece(buf[..a], style)
        + [Click(urls, buf[a..b], style)]
        + Piece(buf[b..], style)
      else []
  }

  function Click(urls: UrlSearch, url: string, style: Style): Part {
    Part(url, style, Some(if urls.hasProtocol(url) then url else "http://" + url))
  }

  function Piece(text: string, style: Style): seq<Part> {
    if text == "" then [] else [Part(text, style, None)]
  }

  /** The text cut at its codes, each run of it closed in its style. */
  function PartsOf(urls: UrlSearch, text: string, buf: string, style: Style): seq<Part>
    decreases |text|
  {
    if text == [] then Closed(urls, buf, style)
    else if text[0] != SECTION then PartsOf(urls, text[1..], buf + [text[0]], style)
    else if |text| == 1 then Closed(urls, buf, style)
    else Closed(urls, buf, style) + PartsOf(urls, text[2..], "", After(style, text[1]))
  }

  /** After i runes of the text with "§r" behind it. */
  ghost predicate Cut(urls: UrlSearch, text: string, i: nat, parts: seq<Part>, buf: string, style: Style) {
    if i <= |text| then parts + PartsOf(urls, text[i..], buf, style) == PartsOf(urls, text, "", PLAIN)
    else parts == PartsOf(urls, text, "", PLAIN)
  }

  lemma PlainCut(urls: UrlSearch, text: string, i: nat, parts: seq<Part>, buf: string, style: Style)
    requires i < |text| + 2 && Cut(urls, text, i, parts, buf, style)
    requires (text + [SECTION, 'r'])[i] != SECTION
    ensures Cut(urls, text, i + 1, parts, buf + [(text + [SECTION, 'r'])[i]], style)
  {
    hide Closed;
    if i < |text| {
      assert text[i..][1..] == text[i + 1..];
    }
  }

  lemma CodeCut(urls: UrlSearch, text: string, i: nat, parts: seq<Part>, buf: string, style: Style)
    requires i + 1 < |text| + 2 && Cut(urls, text, i, parts, buf, style)
    requires (text + [SECTION, 'r'])[i] == SECTION
    ensures Cut(urls, text, i + 2, parts + Closed(urls, buf, style), "", After(style, (text + [SECTION, 'r'])[i + 1]))
  {
    hide Closed, After;
    if i < |text| {
      if i + 1 < |text| {
        assert text[i..][2..] == text[i + 2..];
      }
    } else {
      assert text[i..] == "";
    }
  }

  // ---- the loop --------------------------------------------------------------------------

  predicate PartOk(urls: UrlSearch, p: Part) {
    && p.text != ""
    && (p.click.Some? ==> p.click.value == if urls.hasProtocol(p.text) then p.text else "http://" + p.text)
  }

  predicate PartsOk(urls: UrlSearch, parts: seq<Part>) {
    forall i :: 0 <= i < |parts| ==> PartOk(urls, parts[i])
  }

  lemma MarkNothing(style: Style)
    ensures Mark("", style) == []
  {
  }

  lemma MarkThree(buf: string, a: nat, b: nat, style: Style)
    requires a <= b <= |buf|
    ensures Mark(buf, style) == Mark(buf[..a], style) + Mark(buf[a..b], style) + Mark(buf[b..], style)
  {
    hide Mark;
    assert buf == buf[..b] + buf[b..] && buf[..b] == buf[..a] + buf[a..b];
    MarkConcat(buf[..b], buf[b..], style);
    MarkConcat(buf[..a], buf[a..b], style);
  }

  lemma PieceShows(urls: UrlSearch, parts: seq<Part>, text: string, style: Style)
    requires PartsOk(urls, parts)
    ensures Shown(parts + Piece(text, style)) == Shown(parts) + Mark(text, style)
    ensures PartsOk(urls, parts + Piece(text, style))
  {
    hide Mark, Shown;
    MarkNothing(style);
    if text != "" {
      ShownAppend(parts, Part(text, style, None));
    } else {
      assert parts + [] == parts;
    }
  }

  lemma ClickShows(urls: UrlSearch, parts: seq<Part>, url: string, style: Style)
    requires PartsOk(urls, parts) && url != ""
    ensures Shown(parts + [Click(urls, url, style)]) == Shown(parts) + Mark(url, style)
    ensures PartsOk(urls, parts + [Click(urls, url, style)])
  {
    hide Mark, Shown;
    ShownAppend(parts, Click(urls, url, style));
  }

  /** What is closed shows the buffered text in its style. */
  lemma ClosedShows(urls: UrlSearch, parts: seq<Part>, buf: string, style: Style)
    requires urls.Lawful() && PartsOk(urls, parts)
    ensures Shown(parts + Closed(urls, buf, style)) == Shown(parts) + Mark(buf, style)
    ensures PartsOk(urls, parts + Closed(urls, buf, style))
  {
    hide Mark, Shown, Piece, PartsOk, Click;
    match urls.find(buf)
    case None => PieceShows(urls, parts, buf, style);
    case Some((a, b)) =>
      ThreeShow(urls, parts, buf, a, b, style);
      Regroup(parts, Piece(buf[..a], style), Click(urls, buf[a..b], style), Piece(buf[b..], style));
  }

  lemma ThreeShow(urls: UrlSearch, parts: seq<Part>, buf: string, a: nat, b: nat, style: Style)
    requires PartsOk(urls, parts) && a < b <= |buf|
    ensures var r := parts + Piece(buf[..a], style) + [Click(urls, buf[a..b], style)] + Piece(buf[b..], style);
      Shown(r) == Shown(parts) + Mark(buf, style) && PartsOk(urls, r)
  {
    hide Mark, Shown, Piece, PartsOk, Click;
    var pre, url, post := buf[..a], buf[a..b], buf[b..];
    var p1 := parts + Piece(pre, style);
    var p2 := p1 + [Click(urls, url, style)];
    PieceShows(urls, parts, pre, style);
    ClickShows(urls, p1, url, style);
    PieceShows(urls, p2, post, style);
    MarkThree(buf, a, b, style);
    JoinThree(Shown(parts), Mark(pre, style), Mark(url, style), Mark(post, style));
  }

  lemma JoinThree<T>(a: seq<T>, b: seq<T>, c: seq<T>, d: seq<T>)
    ensures a + b + c + d == a + (b + c + d)
  {
  }

  lemma Regroup(a: seq<Part>, b: seq<Part>, c: Part, d: seq<Part>)
    ensures a + b + [c] + d == a + (b + [c] + d)
  {
  }

  /** Close the buffered text: at most three parts, the address in the middle. */
  method CloseBuffer(urls: UrlSearch, parts: seq<Part>, buf: string, style: Style) returns (r: seq<Part>)
    requires urls.Lawful() && PartsOk(urls, parts)
    ensures r == parts + Closed(urls, buf, style)
    ensures Shown(r) == Shown(parts) + Mark(buf, style)
    ensures PartsOk(urls, r)
  {
    ClosedShows(urls, parts, buf, style);
    hide Mark, Shown, PartsOk;
    r := parts;
    var found := urls.find(buf);
    if found.None? {
      r := AddPiece(r, buf, style);
      return;
    }
    var a, b := found.value.0, found.value.1;
    r := AddPiece(r, buf[..a], style);
    var url := buf[a..b];
    if !urls.hasProtocol(url) {
      url := "http://" + url;
    }
    var click := Part(buf[a..b], style, Some(url));
    r := r + [click];
    r := AddPiece(r, buf[b..], style);
    Regroup(parts, Piece(buf[..a], style), click, Piece(buf[b..], style));
  }

  /** A part, unless its text is empty. */
  method AddPiece(parts: seq<Part>, text: string, style: Style) returns (r: seq<Part>)
    ensures r == parts + Piece(text, style)
  {
    r := parts;
    if text != "" {
      r := r + [Part(text, style, None)];
    }
  }

  lemma Nothing(style: Style)
    ensures Shown([]) == [] && Mark("", style) == [] && Styled("", style) == []
  {
  }

  lemma PlainStep(text: string, i: nat, buf: string, style: Style)
    requires i < |text| && text[i] != SECTION
    ensures Mark(buf + [text[i]], style) + Styled(text[i + 1..], style) == Mark(buf, style) + Styled(text[i..], style)
  {
    MarkConcat(buf, [text[i]], style);
    assert text[i..][1..] == text[i + 1..] && Mark([text[i]], style) == [(text[i], style)];
  }

  lemma CodeStep(text: string, i: nat, style: Style)
    requires i < |text| && text[i] == SECTION
    ensures Styled(text[i..], style) ==
      if i + 1 < |text| then Styled(text[i + 2..], After(style, text[i + 1])) else []
  {
    if i + 1 < |text| {
      assert text[i..][2..] == text[i + 2..];
    }
  }

  /** After i runes of the text with "§r" behind it: what is shown, what is buffered and what
      is to come make up the whole text. */
  ghost predicate Progress(text: string, i: nat, shown: seq<(char, Style)>, buf: string, style: Style) {
    && (i <= |text| ==> shown + (Mark(buf, style) + Styled(text[i..], style)) == Styled(text, PLAIN))
    && (i == |text| + 1 ==> buf == "")
    && (i > |text| ==> shown == Styled(text, PLAIN))
  }

  lemma PlainProgress(text: string, i: nat, shown: seq<(char, Style)>, buf: string, style: Style)
    requires i < |text| + 2 && Progress(text, i, shown, buf, style)
    requires (text + [SECTION, 'r'])[i] != SECTION
    ensures Progress(text, i + 1, shown, buf + [(text + [SECTION, 'r'])[i]], style)
  {
    if i < |text| {
      PlainStep(text, i, buf, style);
    }
  }

  /** There is always a rune after a section sign: the branch for the end of the input, which
      would take it for a reset, is dead. */
  lemma CodeProgress(text: string, i: nat, shown: seq<(char, Style)>, buf: string, style: Style)
    requires i < |text| + 2 && Progress(text, i, shown, buf, style)
    requires (text + [SECTION, 'r'])[i] == SECTION
    ensures i + 1 < |text| + 2
    ensures Progress(text, i + 2, shown + Mark(buf, style), "", After(style, (text + [SECTION, 'r'])[i + 1]))
  {
    hide After;
    var marked := Mark(buf, style);
    if i < |text| {
      CodeStep(text, i, style);
      assert shown + (marked + Styled(text[i..], style)) == shown + marked + Styled(text[i..], style);
    } else {
      assert text[i..] == "" && shown + (marked + []) == shown + marked;
    }
  }

  /** Para2Json: the parts are those of the text cut at its codes; they show exactly its styled
      characters, and no part is empty. */
  method Parts(urls: UrlSearch, text: string) returns (parts: seq<Part>)
    requires urls.Lawful()
    ensures parts == PartsOf(urls, text, "", PLAIN)
    ensures Shown(parts) == Styled(text, PLAIN)
    ensures PartsOk(urls, parts)
  {
    hide Shown, Styled, Mark, After, PartsOk, PartsOf, Closed;
    var input := text + [SECTION, 'r'];
    parts := [];
    NoParts(urls);
    var style, buf, i := PLAIN, "", 0;
    assert Progress(text, 0, Shown(parts), buf, style) by {
      Nothing(PLAIN);
      assert text[0..] == text;
    }
    while i < |input|
      invariant i <= |input|
      invariant PartsOk(urls, parts)
      invariant Progress(text, i, Shown(parts), buf, style)
      invariant Cut(urls, text, i, parts, buf, style)
    {
      hide Progress, Cut;
      var c := input[i];
      if c != SECTION {
        PlainProgress(text, i, Shown(parts), buf, style);
        PlainCut(urls, text, i, parts, buf, style);
        buf := buf + [c];
        i := i + 1;
        continue;
      }
      CodeProgress(text, i, Shown(parts), buf, style);
      CodeCut(urls, text, i, parts, buf, style);
      parts := CloseBuffer(urls, parts, buf, style);
      buf := "";
      style := After(style, input[i + 1]);
      i := i + 2;
    }
  }

  lemma NoParts(urls: UrlSearch)
    ensures PartsOk(urls, [])
  {
  }
}
