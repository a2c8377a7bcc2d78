/** The Action Replay cheat file (src/ARCodeFile.cpp): categories of codes, each code a list of word pairs. */
module CodeFile {
  import opened Machine

  datatype Code = Code(name: string, enabled: bool, words: seq<u32>)
  datatype Cat = Cat(name: string, codes: seq<Code>)

  const NAME_MAX: nat := 127
  const LINE_MAX: nat := 1023

  // ---- the scanning functions of the C library, as far as the parser uses them

  predicate IsSpace(c: char) {
    c == ' ' || c == '\t' || c == '\n' || c == '\r' || c == '\U{0B}' || c == '\U{0C}'
  }

  function SkipSpace(s: string): string {
    if s != "" && IsSpace(s[0]) then SkipSpace(s[1..]) else s
  }

  function SkipBlank(s: string): string {
    if s != "" && (s[0] == ' ' || s[0] == '\t') then SkipBlank(s[1..]) else s
  }

  /** Up to n characters that are not line ends. */
  function TakeName(s: string, n: nat): string {
    if n == 0 || s == "" || s[0] == '\r' || s[0] == '\n' then "" else [s[0]] + TakeName(s[1..], n - 1)
  }

  predicate IsDigit(c: char) {
    '0' <= c <= '9'
  }

  function ScanDigits(s: string, acc: int): (int, string) {
    if s != "" && IsDigit(s[0]) then ScanDigits(s[1..], 10 * acc + (s[0] - '0') as int) else (acc, s)
  }

  function ScanInt(s: string): Option<(int, string)> {
    var t := SkipSpace(s);
    var neg := t != "" && t[0] == '-';
    var u := if t != "" && (t[0] == '-' || t[0] == '+') then t[1..] else t;
    if u == "" || !IsDigit(u[0]) then None
    else
      var (v, rest) := ScanDigits(u, 0);
      Some((if neg then -v else v, rest))
  }

  function HexValue(c: char): int {
    if '0' <= c <= '9' then (c - '0') as int
    else if 'A' <= c <= 'F' then (c - 'A') as int + 10
    else if 'a' <= c <= 'f' then (c - 'a') as int + 10
    else -1
  }

  /** Hexadecimal digits, at most w of them. */
  function HexDigits(s: string, w: nat, acc: nat): (nat, string) {
    if w > 0 && s != "" && HexValue(s[0]) >= 0 then HexDigits(s[1..], w - 1, 16 * acc + HexValue(s[0])) else (acc, s)
  }

  function ScanHex(s: string): Option<(u32, string)> {
    var t := SkipSpace(s);
    if t == "" || HexValue(t[0]) < 0 then None
    else
      var (v, rest) := HexDigits(t, 8, 0);
      Some((v % TWO_32, rest))
  }

  function Upper(c: char): char {
    if 'a' <= c <= 'z' then c - 'a' + 'A' else c
  }

  /** strncasecmp with an upper-case word. */
  predicate StartsLike(s: string, word: string) {
    |s| >= |word| && forall i :: 0 <= i < |word| ==> Upper(s[i]) == word[i]
  }

  // ---- the parser

  datatype Parser = Parser(done: seq<Cat>, inCat: bool, cat: Cat, inCode: bool, code: Code)
  {
    /** The code being read becomes part of its category. */
    function CloseCode(): Parser {
      if inCode then this.(cat := cat.(codes := cat.codes + [code]), inCode := false) else this
    }

    function Close(): Parser {
      var p := CloseCode();
      if p.inCat then p.(done := p.done + [p.cat]) else p
    }
  }

  function ScanCat(s: string): Option<string> {
    if !("CAT" <= s) then None
    else
      var name := TakeName(SkipSpace(s[3..]), NAME_MAX);
      if name == "" then None else Some(name)
  }

  function ScanCode(s: string): Option<(bool, string)> {
    if !("CODE" <= s) then None
    else
      match ScanInt(s[4..])
      case None => None
      case Some((enable, rest)) =>
        var name := TakeName(SkipSpace(rest), NAME_MAX);
        if name == "" then None else Some((enable != 0, name))
  }

  function ScanData(s: string): Option<(u32, u32)> {
    match ScanHex(s)
    case None => None
    case Some((c0, rest)) =>
      match ScanHex(rest)
      case None => None
      case Some((c1, _)) => Some((c0, c1))
  }

  /** One line; None is a syntax error. */
  function Line(p: Parser, raw: string): Option<Parser> {
    var s := SkipBlank(raw);
    if s == "" || s[0] == '#' || s[0] == '\r' || s[0] == '\n' then Some(p)
    else if StartsLike(s, "CAT") then
      match ScanCat(s) {
        case None => None
        case Some(name) => Some(p.Close().(inCat := true, cat := Cat(name, [])))
      }
    else if StartsLike(s, "CODE") then
      match ScanCode(s) {
        case None => None
        case Some((enabled, name)) =>
          if !p.inCat then None else Some(p.CloseCode().(inCode := true, code := Code(name, enabled, [])))
      }
    else
      match ScanData(s) {
        case None => None
        case Some((c0, c1)) =>
          if !p.inCode then None else Some(p.(code := p.code.(words := p.code.words + [c0, c1])))
      }
  }

  /** How many characters the next line has, its end included. */
  function LineLength(text: string, max: nat): (n: nat)
    ensures n <= |text| && (text != "" && max > 0 ==> n > 0)
  {
    if text == "" || max == 0 then 0
    else if text[0] == '\n' then 1
    else 1 + LineLength(text[1..], max - 1)
  }

  /** A line as a C string ends at its first NUL. */
  function CString(s: string): string {
    if s == "" || s[0] == '\0' then "" else [s[0]] + CString(s[1..])
  }

  function Parse(p: Parser, text: string): Option<Parser>
    decreases |text|
  {
    if text == "" then Some(p)
    else
      var n := LineLength(text, LINE_MAX);
      match Line(p, CString(text[..n]))
      case None => None
      case Some(p') => Parse(p', text[n..])
  }

  function Fresh(): Parser {
    Parser([], false, Cat("", []), false, Code("", false, []))
  }

  function LoadText(text: string): Option<seq<Cat>> {
    match Parse(Fresh(), text)
    case None => None
    case Some(p) => Some(p.Close().done)
  }

  // ---- the printer

  function HexDigit(d: nat): char
    requires d < 16
  {
    "0123456789ABCDEF"[d]
  }

  function Hex(v: nat, n: nat): (s: string)
    ensures |s| == n
  {
    if n == 0 then "" else Hex(v / 16, n - 1) + [HexDigit(v % 16)]
  }

  function DataLine(c0: u32, c1: u32): string {
    Hex(c0, 8) + " " + Hex(c1, 8) + "\n"
  }

  /** The lines of the word pairs from word i on. */
  function WordText(words: seq<u32>, i: nat): string
    requires i <= |words| && |words| % 2 == 0 && i % 2 == 0
    decreases |words| - i
  {
    if i == |words| then "" else DataLine(words[i], words[i + 1]) + WordText(words, i + 2)
  }

  function CodeText(code: Code): string
    requires |code.words| % 2 == 0
  {
    "CODE " + (if code.enabled then "1" else "0") + " " + code.name + "\n" + WordText(code.words, 0) + "\n"
  }

  predicate EvenCodes(codes: seq<Code>) {
    forall c :: c in codes ==> |c.words| % 2 == 0
  }

  function CodesText(codes: seq<Code>): string
    requires EvenCodes(codes)
  {
    if codes == [] then "" else CodeText(codes[0]) + CodesText(codes[1..])
  }

  predicate EvenCats(cats: seq<Cat>) {
    forall c :: c in cats ==> EvenCodes(c.codes)
  }

  function CatText(cat: Cat): string
    requires EvenCodes(cat.codes)
  {
    "CAT " + cat.name + "\n\n" + CodesText(cat.codes)
  }

  /** A blank line goes between categories. */
  function SaveText(cats: seq<Cat>, first: bool): string
    requires EvenCats(cats)
  {
    if cats == [] then "" else (if first then "" else "\n") + CatText(cats[0]) + SaveText(cats[1..], false)
  }

  // ---- what the parser reads off a printed line

  predicate Plain(s: string) {
    forall i :: 0 <= i < |s| ==> s[i] != '\n' && s[i] != '\r' && s[i] != '\0'
  }

  /** Names the printer and the parser agree on. */
  predicate GoodName(name: string) {
    1 <= |name| <= 127 && Plain(name) && !IsSpace(name[0])
  }

  lemma {:induction false} LineEnds(body: string, rest: string, max: nat)
    requires Plain(body) && |body| < max
    ensures LineLength(body + "\n" + rest, max) == |body| + 1
  {
    var s := body + "\n" + rest;
    if body != "" {
      assert s[1..] == body[1..] + "\n" + rest;
      LineEnds(body[1..], rest, max - 1);
    }
  }

  lemma {:induction false} NoNul(body: string)
    requires Plain(body)
    ensures CString(body + "\n") == body + "\n"
  {
    if body == "" {
      assert CString("\n") == ['\n'] + CString("");
    } else {
      assert (body + "\n")[1..] == body[1..] + "\n";
      NoNul(body[1..]);
    }
  }

  lemma ParseLine(p: Parser, body: string, rest: string)
    requires Plain(body) && |body| < LINE_MAX
    ensures Parse(p, body + "\n" + rest)
         == match Line(p, body + "\n") { case None => None case Some(q) => Parse(q, rest) }
  {
    hide Line;
    var text := body + "\n" + rest;
    LineEnds(body, rest, LINE_MAX);
    NoNul(body);
    assert text[..|body| + 1] == body + "\n" && text[|body| + 1..] == rest;
  }

  lemma {:induction false} TakesName(name: string, n: nat)
    requires Plain(name) && |name| <= n
    ensures TakeName(name + "\n", n) == name
  {
    if name != "" {
      assert (name + "\n")[1..] == name[1..] + "\n";
      TakesName(name[1..], n - 1);
    }
  }

  lemma SkipsOne(s: string)
    requires s != "" && !IsSpace(s[0])
    ensures SkipSpace(" " + s) == s && SkipSpace(s) == s
  {
    assert (" " + s)[1..] == s;
  }

  lemma CatLine(p: Parser, name: string)
    requires GoodName(name)
    ensures Line(p, "CAT " + name + "\n") == Some(p.Close().(inCat := true, cat := Cat(name, [])))
  {
    hide TakeName, SkipSpace;
    var s := "CAT " + name + "\n";
    assert s[..3] == "CAT" && s[3..] == " " + (name + "\n");
    assert s[0] == 'C' && s[1] == 'A' && s[2] == 'T';
    SkipsOne(name + "\n");
    TakesName(name, NAME_MAX);
  }

  lemma ScansFlag(flag: string, rest: string)
    requires flag == "0" || flag == "1"
    ensures ScanInt(" " + flag + " " + rest) == Some((if flag == "1" then 1 else 0, " " + rest))
  {
    var t := flag + " " + rest;
    SkipsOne(t);
    assert " " + flag + " " + rest == " " + t;
    assert t[1..] == " " + rest;
    assert ScanDigits(t[1..], 10 * 0 + (t[0] - '0') as int) == ((t[0] - '0') as int, t[1..]);
  }

  lemma CodeLine(p: Parser, name: string, enabled: bool)
    requires GoodName(name) && p.inCat
    ensures Line(p, "CODE " + (if enabled then "1" else "0") + " " + name + "\n")
         == Some(p.CloseCode().(inCode := true, code := Code(name, enabled, [])))
  {
    hide TakeName, SkipSpace, ScanInt;
    var flag := if enabled then "1" else "0";
    var s := "CODE " + flag + " " + name + "\n";
    assert s[..4] == "CODE" && s[4..] == " " + flag + " " + (name + "\n");
    assert s[0] == 'C' && s[1] == 'O' && s[2] == 'D' && s[3] == 'E';
    ScansFlag(flag, name + "\n");
    SkipsOne(name + "\n");
    TakesName(name, NAME_MAX);
  }

  lemma BlankLine(p: Parser)
    ensures Line(p, "\n") == Some(p)
  {
  }

  lemma DigitValue(d: nat)
    requires d < 16
    ensures HexValue(HexDigit(d)) == d && HexDigit(d) !in " \t\r\n\0#" && !IsSpace(HexDigit(d))
    ensures Upper(HexDigit(d)) != 'T' && Upper(HexDigit(d)) != 'O'
  {
  }

  lemma {:induction false} HexIsDigits(v: nat, n: nat, i: nat)
    requires i < n
    ensures exists d :: 0 <= d < 16 && Hex(v, n)[i] == HexDigit(d)
  {
    if i < n - 1 {
      HexIsDigits(v / 16, n - 1, i);
      assert Hex(v, n)[i] == Hex(v / 16, n - 1)[i];
    } else {
      assert Hex(v, n)[i] == HexDigit(v % 16);
    }
  }

  function Pow16(n: nat): nat {
    if n == 0 then 1 else 16 * Pow16(n - 1)
  }

  /** Printed digits are read back as the number they stand for, behind whatever was read before. */
  lemma {:induction false} HexScans(v: nat, n: nat, w: nat, acc: nat, rest: string)
    requires n <= w && v < Pow16(n)
    ensures HexDigits(Hex(v, n) + rest, w, acc) == HexDigits(rest, w - n, acc * Pow16(n) + v)
  {
    if n == 0 {
      assert Hex(v, n) + rest == rest;
    } else {
      hide HexDigit, HexValue;
      var d := [HexDigit(v % 16)];
      assert Hex(v, n) + rest == Hex(v / 16, n - 1) + (d + rest);
      HexScans(v / 16, n - 1, w, acc, d + rest);
      DigitValue(v % 16);
      assert (d + rest)[1..] == rest;
      Horner(acc, Pow16(n - 1), v);
    }
  }

  lemma Horner(acc: nat, p: nat, v: nat)
    ensures 16 * (acc * p + v / 16) + v % 16 == acc * (16 * p) + v
  {
    assert 16 * (acc * p) == acc * (16 * p);
  }

  lemma ScansWord(v: u32, rest: string)
    ensures ScanHex(Hex(v, 8) + rest) == Some((v, rest)) && ScanHex(" " + Hex(v, 8) + rest) == Some((v, rest))
  {
    hide HexDigits, HexDigit, Hex;
    assert Pow16(8) == TWO_32 by {
      assert Pow16(4) == 0x1_0000;
    }
    var s := Hex(v, 8) + rest;
    HexIsDigits(v, 8, 0);
    var d :| 0 <= d < 16 && Hex(v, 8)[0] == HexDigit(d);
    DigitValue(d);
    SkipsOne(s);
    assert " " + Hex(v, 8) + rest == " " + s;
    HexScans(v, 8, 8, 0, rest);
    NoWidth(rest, v);
  }

  lemma NoWidth(rest: string, acc: nat)
    ensures HexDigits(rest, 0, acc) == (acc, rest)
  {
  }

  /** A data line is never taken for a CAT or CODE line, and gives its two words back. */
  lemma DataLineReads(p: Parser, c0: u32, c1: u32)
    requires p.inCode
    ensures !StartsLike(DataLine(c0, c1), "CAT") && !StartsLike(DataLine(c0, c1), "CODE")
    ensures Line(p, DataLine(c0, c1)) == Some(p.(code := p.code.(words := p.code.words + [c0, c1])))
  {
    hide Hex, HexDigit, ScanHex;
    var s := DataLine(c0, c1);
    forall i | 0 <= i < 3 ensures s[i] !in " \t\r\n\0#" && Upper(s[i]) != 'T' && Upper(s[i]) != 'O' {
      HexIsDigits(c0, 8, i);
      var d :| 0 <= d < 16 && Hex(c0, 8)[i] == HexDigit(d);
      DigitValue(d);
    }
    assert s[0] != ' ' && s[0] != '\t' && s[0] != '#' && s[0] != '\r' && s[0] != '\n' && Upper(s[2]) != 'T' && Upper(s[1]) != 'O';
    assert s == Hex(c0, 8) + (" " + Hex(c1, 8) + "\n");
    ScansWord(c0, " " + Hex(c1, 8) + "\n");
    ScansWord(c1, "\n");
  }

  // ---- the printer undone

  lemma PlainData(c0: u32, c1: u32)
    ensures Plain(Hex(c0, 8) + " " + Hex(c1, 8))
  {
    hide Hex, HexDigit;
    var s := Hex(c0, 8) + " " + Hex(c1, 8);
    forall i | 0 <= i < |s| ensures s[i] != '\n' && s[i] != '\r' && s[i] != '\0' {
      if i != 8 {
        var (v, j) := if i < 8 then (c0, i) else (c1, i - 9);
        HexIsDigits(v, 8, j);
        var d :| 0 <= d < 16 && Hex(v, 8)[j] == HexDigit(d);
        DigitValue(d);
      }
    }
  }

  lemma Regroup<T>(a: seq<T>, b: seq<T>, c: seq<T>)
    ensures (a + b) + c == a + (b + c)
  {
  }

  lemma Rest<T>(a: seq<T>, b: seq<T>)
    requires b != []
    ensures a + [b[0]] + b[1..] == a + b
  {
  }

  lemma WordStep(words: seq<u32>, i: nat, rest: string)
    requires i < |words| && |words| % 2 == 0 && i % 2 == 0
    ensures WordText(words, i) + rest == (Hex(words[i], 8) + " " + Hex(words[i + 1], 8)) + "\n" + (WordText(words, i + 2) + rest)
    ensures DataLine(words[i], words[i + 1]) == (Hex(words[i], 8) + " " + Hex(words[i + 1], 8)) + "\n"
  {
    hide Hex;
  }

  lemma TwoMore(a: seq<u32>, words: seq<u32>, i: nat)
    requires i + 2 <= |words|
    ensures a + [words[i], words[i + 1]] + words[i + 2..] == a + words[i..]
  {
    assert words[i..] == [words[i], words[i + 1]] + words[i + 2..];
  }

  lemma CodesStep(codes: seq<Code>, rest: string)
    requires codes != [] && EvenCodes(codes)
    ensures CodesText(codes) + rest == CodeText(codes[0]) + (CodesText(codes[1..]) + rest)
  {
    hide CodeText;
  }

  function WithWords(p: Parser, words: seq<u32>): Parser {
    p.(code := p.code.(words := p.code.words + words))
  }

  lemma ParseWordLine(p: Parser, words: seq<u32>, i: nat, rest: string)
    requires p.inCode && i < |words| && |words| % 2 == 0 && i % 2 == 0
    ensures Parse(p, WordText(words, i) + rest) == Parse(WithWords(p, [words[i], words[i + 1]]), WordText(words, i + 2) + rest)
  {
    hide Hex, Line, Parse, WordText, DataLine;
    var c0, c1 := words[i], words[i + 1];
    WordStep(words, i, rest);
    PlainData(c0, c1);
    ParseLine(p, Hex(c0, 8) + " " + Hex(c1, 8), WordText(words, i + 2) + rest);
    DataLineReads(p, c0, c1);
  }

  lemma {:induction false} ParseWords(p: Parser, words: seq<u32>, i: nat, rest: string)
    requires p.inCode && i <= |words| && |words| % 2 == 0 && i % 2 == 0
    ensures Parse(p, WordText(words, i) + rest) == Parse(WithWords(p, words[i..]), rest)
    decreases |words| - i
  {
    hide Parse, WordText;
    if i == |words| {
      assert p.code.words + words[i..] == p.code.words;
      NoWords(words);
      assert "" + rest == rest;
    } else {
      ParseWordLine(p, words, i, rest);
      ParseWords(WithWords(p, [words[i], words[i + 1]]), words, i + 2, rest);
      TwoMore(p.code.words, words, i);
    }
  }

  lemma NoWords(words: seq<u32>)
    requires |words| % 2 == 0
    ensures WordText(words, |words|) == ""
  {
  }

  lemma ParseCode(p: Parser, code: Code, rest: string)
    requires p.inCat && GoodName(code.name) && |code.words| % 2 == 0
    ensures Parse(p, CodeText(code) + rest) == Parse(p.CloseCode().(inCode := true, code := code), rest)
  {
    hide Line, Parse, WordText;
    var head := "CODE " + (if code.enabled then "1" else "0") + " " + code.name;
    var q := p.CloseCode().(inCode := true, code := Code(code.name, code.enabled, []));
    var r := p.CloseCode().(inCode := true, code := code);
    var tail := WordText(code.words, 0) + ("\n" + rest);
    assert CodeText(code) + rest == head + "\n" + tail;
    assert "\n" + rest == "" + "\n" + rest;
    ParseLine(p, head, tail);
    CodeLine(p, code.name, code.enabled);
    ParseWords(q, code.words, 0, "\n" + rest);
    assert [] + code.words[0..] == code.words;
    ParseLine(r, "", rest);
    assert "" + "\n" == "\n";
    BlankLine(r);
  }

  predicate GoodCodes(codes: seq<Code>) {
    EvenCodes(codes) && forall c :: c in codes ==> GoodName(c.name)
  }

  predicate GoodCats(cats: seq<Cat>) {
    forall c :: c in cats ==> GoodName(c.name) && GoodCodes(c.codes)
  }

  lemma {:induction false} ParseCodes(p: Parser, codes: seq<Code>, rest: string) returns (q: Parser)
    requires p.inCat && GoodCodes(codes)
    ensures Parse(p, CodesText(codes) + rest) == Parse(q, rest)
    ensures q.inCat && q.done == p.done
    ensures q.CloseCode().cat == p.CloseCode().cat.(codes := p.CloseCode().cat.codes + codes)
    decreases |codes|
  {
    if codes == [] {
      q := p;
      assert CodesText(codes) + rest == rest;
      assert p.CloseCode().cat.codes + codes == p.CloseCode().cat.codes;
    } else {
      hide Parse, CodeText, CodesText;
      CodesStep(codes, rest);
      ParseCode(p, codes[0], CodesText(codes[1..]) + rest);
      var r := p.CloseCode().(inCode := true, code := codes[0]);
      q := ParseCodes(r, codes[1..], rest);
      Rest(p.CloseCode().cat.codes, codes);
    }
  }

  lemma ParseCat(p: Parser, cat: Cat, rest: string) returns (q: Parser)
    requires GoodName(cat.name) && GoodCodes(cat.codes)
    ensures Parse(p, CatText(cat) + rest) == Parse(q, rest) && q.Close().done == p.Close().done + [cat]
  {
    hide Parse, Line, CodesText;
    var tail := CodesText(cat.codes) + rest;
    var r := p.Close().(inCat := true, cat := Cat(cat.name, []));
    assert CatText(cat) + rest == ("CAT " + cat.name) + "\n" + ("" + "\n" + tail);
    ParseLine(p, "CAT " + cat.name, "" + "\n" + tail);
    CatLine(p, cat.name);
    ParseLine(r, "", tail);
    assert "" + "\n" == "\n";
    BlankLine(r);
    q := ParseCodes(r, cat.codes, rest);
    assert [] + cat.codes == cat.codes;
  }

  lemma CatsStep(cats: seq<Cat>, first: bool)
    requires cats != [] && EvenCats(cats)
    ensures var rest := CatText(cats[0]) + SaveText(cats[1..], false);
            SaveText(cats, first) == if first then rest else "" + "\n" + rest
    ensures "" + "\n" == "\n"
  {
    hide CatText;
    var head := if first then "" else "\n";
    assert "" + "\n" == "\n";
    Regroup(head, CatText(cats[0]), SaveText(cats[1..], false));
  }

  lemma {:induction false} ParseCats(p: Parser, cats: seq<Cat>, first: bool) returns (q: Parser)
    requires GoodCats(cats)
    ensures Parse(p, SaveText(cats, first)) == Some(q) && q.Close().done == p.Close().done + cats
    decreases |cats|
  {
    if cats == [] {
      q := p;
    } else {
      hide Parse, Line, CatText, SaveText, Parser.Close;
      var rest := CatText(cats[0]) + SaveText(cats[1..], false);
      CatsStep(cats, first);
      if !first {
        ParseLine(p, "", rest);
        BlankLine(p);
      }
      var r := ParseCat(p, cats[0], SaveText(cats[1..], false));
      q := ParseCats(r, cats[1..], false);
      Rest(p.Close().done, cats);
    }
  }

  // ---- whatever the parser accepts has good names

  predicate NulFree(s: string) {
    forall i :: 0 <= i < |s| ==> s[i] != '\0'
  }

  lemma {:induction false} CStringIsNulFree(s: string)
    ensures NulFree(CString(s))
  {
    if s != "" && s[0] != '\0' {
      CStringIsNulFree(s[1..]);
    }
  }

  lemma {:induction false} SkipsSpace(s: string)
    requires NulFree(s)
    ensures NulFree(SkipSpace(s)) && (SkipSpace(s) != "" ==> !IsSpace(SkipSpace(s)[0]))
  {
    if s != "" && IsSpace(s[0]) {
      SkipsSpace(s[1..]);
    }
  }

  lemma {:induction false} SkipsBlank(s: string)
    requires NulFree(s)
    ensures NulFree(SkipBlank(s))
  {
    if s != "" && (s[0] == ' ' || s[0] == '\t') {
      SkipsBlank(s[1..]);
    }
  }

  lemma {:induction false} SkipsDigits(s: string, acc: int)
    requires NulFree(s)
    ensures NulFree(ScanDigits(s, acc).1)
  {
    if s != "" && IsDigit(s[0]) {
      SkipsDigits(s[1..], 10 * acc + (s[0] - '0') as int);
    }
  }

  lemma {:induction false} TakesPlain(s: string, n: nat)
    requires NulFree(s)
    ensures Plain(TakeName(s, n)) && |TakeName(s, n)| <= n && (TakeName(s, n) != "" ==> TakeName(s, n)[0] == s[0])
  {
    if n > 0 && s != "" && s[0] != '\r' && s[0] != '\n' {
      TakesPlain(s[1..], n - 1);
    }
  }

  lemma NameIsGood(s: string)
    requires NulFree(s)
    ensures var name := TakeName(SkipSpace(s), NAME_MAX); name != "" ==> GoodName(name)
  {
    hide TakeName, SkipSpace;
    SkipsSpace(s);
    TakesPlain(SkipSpace(s), NAME_MAX);
    var t := SkipSpace(s);
    if t == "" {
      TakesNothing(NAME_MAX);
    }
  }

  lemma TakesNothing(n: nat)
    ensures TakeName("", n) == ""
  {
  }

  lemma IntIsFree(s: string)
    requires NulFree(s)
    ensures ScanInt(s).Some? ==> NulFree(ScanInt(s).value.1)
  {
    hide SkipSpace, ScanDigits;
    SkipsSpace(s);
    var t := SkipSpace(s);
    var u := if t != "" && (t[0] == '-' || t[0] == '+') then t[1..] else t;
    SkipsDigits(u, 0);
  }

  /** What has been read so far is good. */
  predicate GoodParser(p: Parser) {
    && GoodCats(p.done) && (p.inCode ==> p.inCat && GoodName(p.code.name) && |p.code.words| % 2 == 0)
    && (p.inCat ==> GoodName(p.cat.name) && GoodCodes(p.cat.codes))
  }

  lemma ClosesGood(p: Parser)
    requires GoodParser(p)
    ensures GoodParser(p.CloseCode()) && GoodCats(p.Close().done) && !p.Close().inCode && !p.CloseCode().inCode
    ensures p.CloseCode().inCat == p.inCat
  {
    hide GoodName;
  }

  lemma LineKeepsGood(p: Parser, raw: string)
    requires GoodParser(p) && NulFree(raw)
    ensures Line(p, raw).Some? ==> GoodParser(Line(p, raw).value)
  {
    hide TakeName, SkipSpace, SkipBlank, ScanInt, ScanHex, StartsLike, GoodName, IsSpace;
    ClosesGood(p);
    SkipsBlank(raw);
    var s := SkipBlank(raw);
    if |s| >= 3 {
      NameIsGood(s[3..]);
    }
    if |s| >= 4 {
      IntIsFree(s[4..]);
      if ScanInt(s[4..]).Some? {
        NameIsGood(ScanInt(s[4..]).value.1);
      }
    }
  }

  lemma {:induction false} ParseKeepsGood(p: Parser, text: string)
    requires GoodParser(p)
    ensures Parse(p, text).Some? ==> GoodParser(Parse(p, text).value)
    decreases |text|
  {
    hide Line, GoodParser;
    if text != "" {
      var n := LineLength(text, LINE_MAX);
      CStringIsNulFree(text[..n]);
      LineKeepsGood(p, CString(text[..n]));
      if Line(p, CString(text[..n])).Some? {
        ParseKeepsGood(Line(p, CString(text[..n])).value, text[n..]);
      }
    }
  }

  /** Every file that loads gives names of 1 to 127 plain characters that do not begin with a space, and an even
      number of words in every code. */
  lemma LoadsGood(text: string)
    ensures LoadText(text).Some? ==> GoodCats(LoadText(text).value)
  {
    hide Parse, GoodName, GoodCodes;
    ParseKeepsGood(Fresh(), text);
    if Parse(Fresh(), text).Some? {
      ClosesGood(Parse(Fresh(), text).value);
    }
  }

  /** Load of what Save writes gives the same categories exactly when every name has 1 to 127 plain characters and
      does not begin with a space. */
  lemma LoadUndoesSave(cats: seq<Cat>)
    requires EvenCats(cats)
    ensures LoadText(SaveText(cats, true)) == Some(cats) <==> GoodCats(cats)
  {
    hide Parse, SaveText, GoodName;
    LoadsGood(SaveText(cats, true));
    if GoodCats(cats) {
      var q := ParseCats(Fresh(), cats, true);
      assert [] + cats == cats;
    }
  }

  /** A longer name that fits a line comes back cut to its first 127 characters. */
  lemma LongNameIsCut(name: string)
    requires 127 < |name| < 1019 && Plain(name) && !IsSpace(name[0])
    ensures LoadText(SaveText([Cat(name, [])], true)) == Some([Cat(name[..127], [])])
  {
    hide Parse, Line;
    var p := Fresh();
    var q := p.(inCat := true, cat := Cat(name[..NAME_MAX], []));
    assert SaveText([Cat(name, [])], true) == ("CAT " + name) + "\n" + ("" + "\n" + "");
    ParseLine(p, "CAT " + name, "" + "\n" + "");
    LongCatLine(p, name);
    ParseLine(q, "", "");
    assert "" + "\n" == "\n";
    BlankLine(q);
    NoText(q);
    assert q.Close().done == [Cat(name[..NAME_MAX], [])];
  }

  lemma NoText(p: Parser)
    ensures Parse(p, "") == Some(p)
  {
  }

  lemma LongCatLine(p: Parser, name: string)
    requires |name| > NAME_MAX && Plain(name) && !IsSpace(name[0])
    ensures Line(p, "CAT " + name + "\n") == Some(p.Close().(inCat := true, cat := Cat(name[..NAME_MAX], [])))
  {
    hide TakeName, SkipSpace;
    var s := "CAT " + name + "\n";
    assert s[..3] == "CAT" && s[3..] == " " + (name + "\n");
    assert s[0] == 'C' && s[1] == 'A' && s[2] == 'T';
    SkipsOne(name + "\n");
    TakesPrefix(name, name + "\n", NAME_MAX);
  }

  lemma {:induction false} TakesPrefix(name: string, s: string, n: nat)
    requires Plain(name) && n <= |name| && name <= s
    ensures TakeName(s, n) == name[..n]
  {
    if n > 0 {
      TakesPrefix(name[1..], s[1..], n - 1);
      assert name[..n] == [name[0]] + name[1..][..n - 1];
    }
  }

  lemma NoCats(first: bool)
    ensures SaveText([], first) == ""
  {
  }

  // ---- the file object

  // ---- what else the parser accepts

  /** Blanks and tabs in front of a line make no difference. */
  lemma {:induction false} LeadingBlanks(p: Parser, blanks: string, s: string)
    requires forall i :: 0 <= i < |blanks| ==> blanks[i] == ' ' || blanks[i] == '\t'
    ensures Line(p, blanks + s) == Line(p, s)
  {
    hide StartsLike, ScanCat, ScanCode, ScanData, IsSpace;
    if blanks == "" {
      assert blanks + s == s;
    } else {
      LeadingBlanks(p, blanks[1..], s);
      assert (blanks + s)[1..] == blanks[1..] + s;
      SkippedBlank(blanks + s);
    }
  }

  lemma SkippedBlank(s: string)
    requires s != "" && (s[0] == ' ' || s[0] == '\t')
    ensures SkipBlank(s) == SkipBlank(s[1..])
  {
  }

  /** Comments and empty lines change nothing. */
  lemma Comment(p: Parser, s: string)
    requires s == "" || s[0] == '#' || s[0] == '\r' || s[0] == '\n'
    ensures Line(p, s) == Some(p)
  {
  }

  /** The keywords are recognised in either case, but only upper case gets past the scanning: every other spelling is
      a syntax error. */
  lemma MixedCaseFails(p: Parser, s: string)
    requires |s| >= 3 && s[0] in "Cc" && s[1] in "Aa" && s[2] in "Tt" && s[..3] != "CAT"
    ensures Line(p, s) == None
  {
    hide TakeName, SkipSpace;
    assert s[..3] == [s[0], s[1], s[2]];
    assert "CAT"[0] == 'C' && "CAT"[1] == 'A' && "CAT"[2] == 'T';
  }

  lemma MixedCodeFails(p: Parser, s: string)
    requires |s| >= 4 && s[0] in "Cc" && s[1] in "Oo" && s[2] in "Dd" && s[3] in "Ee" && s[..4] != "CODE"
    ensures Line(p, s) == None
  {
    hide TakeName, SkipSpace, ScanInt;
    assert s[..4] == [s[0], s[1], s[2], s[3]];
    assert "CODE"[0] == 'C' && "CODE"[1] == 'O' && "CODE"[2] == 'D' && "CODE"[3] == 'E';
    assert !StartsLike(s, "CAT") by {
      assert "CAT"[1] == 'A';
    }
  }

  /** Hexadecimal digits count in either case. */
  lemma HexEitherCase(c: char)
    ensures 'a' <= c <= 'f' ==> HexValue(c) == HexValue(Upper(c)) == (c - 'a') as int + 10
    ensures HexValue(c) >= 0 <==> '0' <= c <= '9' || 'A' <= c <= 'F' || 'a' <= c <= 'f'
  {
  }

  /** The state of a code is the decimal number behind CODE: on unless all its digits are zero. */
  lemma {:induction false} NumberIsOn(digits: string, rest: string, acc: int)
    requires acc >= 0 && forall i :: 0 <= i < |digits| ==> '0' <= digits[i] <= '9'
    requires rest == "" || !('0' <= rest[0] <= '9')
    ensures ScanDigits(digits + rest, acc).1 == rest && ScanDigits(digits + rest, acc).0 >= 0
    ensures ScanDigits(digits + rest, acc).0 == 0 <==> acc == 0 && forall i :: 0 <= i < |digits| ==> digits[i] == '0'
  {
    if digits == "" {
      assert digits + rest == rest;
    } else {
      var d := (digits[0] - '0') as int;
      assert (digits + rest)[1..] == digits[1..] + rest;
      NumberIsOn(digits[1..], rest, 10 * acc + d);
      assert ScanDigits(digits + rest, acc) == ScanDigits(digits[1..] + rest, 10 * acc + d);
      assert d == 0 <==> digits[0] == '0';
      assert forall i :: 0 < i < |digits| ==> digits[i] == digits[1..][i - 1];
      assert forall i :: 0 <= i < |digits| - 1 ==> digits[1..][i] == digits[i + 1];
    }
  }

  lemma CodeLineOn(p: Parser, digits: string, name: string)
    requires p.inCat && GoodName(name) && digits != "" && forall i :: 0 <= i < |digits| ==> '0' <= digits[i] <= '9'
    ensures Line(p, "CODE " + digits + " " + name + "\n")
         == Some(p.CloseCode().(inCode := true, code := Code(name, exists i :: 0 <= i < |digits| && digits[i] != '0', [])))
  {
    hide TakeName, SkipSpace, ScanDigits;
    var s := "CODE " + digits + " " + name + "\n";
    var rest := " " + (name + "\n");
    assert s[..4] == "CODE" && s[4..] == " " + (digits + rest);
    assert s[0] == 'C' && s[1] == 'O' && s[2] == 'D' && s[3] == 'E';
    SkipsOne(digits + rest);
    NumberIsOn(digits, rest, 0);
    SkipsOne(name + "\n");
    TakesName(name, NAME_MAX);
  }

  class ARCodeFile {
    var categories: seq<Cat>

    /** Save: the text of the file. */
    method Save() returns (text: string)
      requires EvenCats(categories)
      ensures text == SaveText(categories, true)
    {
      hide CatText, SaveText;
      text := "";
      var i := 0;
      while i < |categories|
        invariant i <= |categories|
        invariant text + SaveText(categories[i..], i == 0) == SaveText(categories, true)
      {
        assert categories[i..][1..] == categories[i + 1..];
        CatsStep(categories[i..], i == 0);
        Regroup(text, "\n", CatText(categories[i]) + SaveText(categories[i + 1..], false));
        if i != 0 {
          text := text + "\n";
        }
        var part := SaveCat(categories[i]);
        Regroup(text, part, SaveText(categories[i + 1..], false));
        text := text + part;
        i := i + 1;
      }
      NoCats(i == 0);
      assert text + "" == text;
    }

    static method SaveCat(cat: Cat) returns (text: string)
      requires EvenCodes(cat.codes)
      ensures text == CatText(cat)
    {
      text := "CAT " + cat.name + "\n\n";
      ghost var head := text;
      var i := 0;
      while i < |cat.codes|
        invariant i <= |cat.codes|
        invariant text + CodesText(cat.codes[i..]) == head + CodesText(cat.codes)
      {
        assert cat.codes[i..][0] == cat.codes[i] && cat.codes[i..][1..] == cat.codes[i + 1..];
        var part := SaveCode(cat.codes[i]);
        text := text + part;
        i := i + 1;
      }
      assert text + "" == text;
    }

    static method SaveCode(code: Code) returns (text: string)
      requires |code.words| % 2 == 0
      ensures text == CodeText(code)
    {
      hide DataLine;
      text := "CODE " + (if code.enabled then "1" else "0") + " " + code.name + "\n";
      ghost var head := text;
      var i := 0;
      while i < |code.words|
        invariant i <= |code.words| && i % 2 == 0
        invariant text + WordText(code.words, i) == head + WordText(code.words, 0)
      {
        text := text + DataLine(code.words[i], code.words[i + 1]);
        i := i + 2;
      }
      assert text + "" == text;
      text := text + "\n";
    }

    /** Load: line by line; a syntax error leaves what was complete before it. */
    method Load(text: string) returns (ok: bool)
      modifies this
      ensures ok <==> LoadText(text).Some?
      ensures ok ==> categories == LoadText(text).value
    {
      hide Line;
      categories := [];
      var p := Fresh();
      var rest := text;
      while rest != ""
        invariant Parse(Fresh(), text) == Parse(p, rest)
        invariant categories == p.done
        decreases |rest|
      {
        var n := LineLength(rest, LINE_MAX);
        match Line(p, CString(rest[..n])) {
          case None =>
            return false;
          case Some(q) =>
            p := q;
            rest := rest[n..];
            categories := p.done;
        }
      }
      categories := p.Close().done;
      return true;
    }
  }
}
