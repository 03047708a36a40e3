/**
  The Action Replay code file: a line-by-line loader with the scanf conversions it uses, and the
  printer that it must undo.
 */
module CheatFiles {

  type Word = w: nat | w < 0x1_0000_0000

  import opened Wrappers

  datatype Code = Code(name: string, enabled: bool, words: seq<Word>)

  datatype Category = Category(name: string, codes: seq<Code>)

  // ----- Scanning, as scanf does it -----

  predicate IsSpace(c: char) {
    c == ' ' || c == '\t' || c == '\n' || c == '\r' || c == (11 as char) || c == (12 as char)
  }

  function SkipSpace(s: string): (r: string)
    ensures |r| <= |s|
  {
    if s != "" && IsSpace(s[0]) then SkipSpace(s[1..]) else s
  }

  /** %n[^\r\n] */
  function TakeName(s: string, n: nat): (name: string)
    ensures |name| <= n && name <= s
  {
    if s == "" || n == 0 || s[0] == '\r' || s[0] == '\n' then "" else [s[0]] + TakeName(s[1..], n - 1)
  }

  predicate IsDigit(c: char) {
    '0' <= c <= '9'
  }

  function TakeDigits(s: string): (d: string)
    ensures d <= s
  {
    if s == "" || !IsDigit(s[0]) then "" else [s[0]] + TakeDigits(s[1..])
  }

  predicate IsHex(c: char) {
    '0' <= c <= '9' || 'A' <= c <= 'F' || 'a' <= c <= 'f'
  }

  function HexDigit(c: char): (v: nat)
    requires IsHex(c)
    ensures v < 16
  {
    if c <= '9' then c as int - '0' as int
    else if c <= 'F' then c as int - 'A' as int + 10
    else c as int - 'a' as int + 10
  }

  function TakeHex(s: string, n: nat): (d: string)
    ensures |d| <= n && d <= s && forall i :: 0 <= i < |d| ==> IsHex(d[i])
  {
    if s == "" || n == 0 || !IsHex(s[0]) then "" else [s[0]] + TakeHex(s[1..], n - 1)
  }

  function HexValue(d: string): nat
    requires forall i :: 0 <= i < |d| ==> IsHex(d[i])
  {
    if d == "" then 0 else 16 * HexValue(d[..|d| - 1]) + HexDigit(d[|d| - 1])
  }

  predicate NonZero(d: string) {
    d != "" && (d[0] != '0' || NonZero(d[1..]))
  }

  /** %d, as far as it matters: whether the number is zero, and the rest of the input. */
  function ScanFlag(s: string): Option<(bool, string)> {
    var t := SkipSpace(s);
    var u := if t != "" && (t[0] == '-' || t[0] == '+') then t[1..] else t;
    var d := TakeDigits(u);
    if d == "" then None else Some((NonZero(d), u[|d|..]))
  }

  /** %08X: at most eight characters, sign and 0x prefix included; a negative number wraps around. */
  function ScanHex(s: string): Option<(Word, string)> {
    var t := SkipSpace(s);
    var signed := t != "" && (t[0] == '-' || t[0] == '+');
    var u := if signed then t[1..] else t;
    var w := if signed then 7 else 8;
    var prefixed := |u| >= 3 && u[0] == '0' && (u[1] == 'x' || u[1] == 'X') && IsHex(u[2]);
    var v := if prefixed then u[2..] else u;
    var d := TakeHex(v, if prefixed then w - 2 else w);
    if d == "" then None
    else Some(((if signed && t[0] == '-' then -(HexValue(d) as int) else HexValue(d)) % 0x1_0000_0000, v[|d|..]))
  }

  function Upper(c: char): char {
    if 'a' <= c <= 'z' then (c as int - 32) as char else c
  }

  /** strncasecmp with an upper-case keyword. */
  predicate HasKeyword(s: string, key: string) {
    |s| >= |key| && forall i :: 0 <= i < |key| ==> Upper(s[i]) == key[i]
  }

  function ScanName(s: string): Option<string> {
    var name := TakeName(SkipSpace(s), 127);
    if name == "" then None else Some(name)
  }

  /** The keyword test ignores case but the conversion does not. */
  function ScanCat(s: string): Option<string> {
    if |s| >= 3 && s[..3] == "CAT" then ScanName(s[3..]) else None
  }

  function ScanCode(s: string): Option<(bool, string)> {
    if |s| >= 4 && s[..4] == "CODE" then
      match ScanFlag(s[4..])
      case None => None
      case Some((on, rest)) =>
        match ScanName(rest)
        case None => None
        case Some(name) => Some((on, name))
    else None
  }

  function ScanData(s: string): Option<(Word, Word)> {
    match ScanHex(s)
    case None => None
    case Some((a, rest)) =>
      match ScanHex(rest)
      case None => None
      case Some((b, _)) => Some((a, b))
  }

  // ----- Loading -----

  /** The loader's variables: finished categories, and the category and code being read. */
  datatype Loader = Loader(done: seq<Category>, cat: Option<Category>, code: Option<Code>)

  function CloseCode(l: Loader): Loader {
    if l.code.Some? && l.cat.Some? then
      l.(cat := Some(l.cat.value.(codes := l.cat.value.codes + [l.code.value])), code := None)
    else l.(code := None)
  }

  function CloseCat(l: Loader): Loader {
    var m := CloseCode(l);
    if m.cat.Some? then Loader(m.done + [m.cat.value], None, None) else m
  }

  /** The text of a line up to a NUL, without leading blanks. */
  function Trimmed(line: string): (s: string)
    ensures |s| <= |line|
  {
    if line != "" && (line[0] == ' ' || line[0] == '\t') then Trimmed(line[1..]) else line
  }

  function CString(line: string): (s: string)
    ensures |s| <= |line|
  {
    if line == "" || line[0] == '\0' then "" else [line[0]] + CString(line[1..])
  }

  predicate IsSkipped(s: string) {
    s == "" || s[0] == '#' || s[0] == '\r' || s[0] == '\n'
  }

  /** One line; None is the malformed-line error. */
  function StepLine(l: Loader, line: string): Option<Loader> {
    var s := Trimmed(CString(line));
    if IsSkipped(s) then Some(l)
    else if HasKeyword(s, "CAT") then
      match ScanCat(s)
      case None => None
      case Some(name) => Some(CloseCat(l).(cat := Some(Category(name, []))))
    else if HasKeyword(s, "CODE") then
      match ScanCode(s)
      case None => None
      case Some((on, name)) => if l.cat.None? then None else Some(CloseCode(l).(code := Some(Code(name, on, []))))
    else
      match ScanData(s)
      case None => None
      case Some((a, b)) =>
        if l.code.None? then None else Some(l.(code := Some(l.code.value.(words := l.code.value.words + [a, b]))))
  }

  /** What fgets takes: up to and including a newline, at most n characters. */
  function LineLength(text: string, n: nat): (k: nat)
    ensures k <= |text| && k <= n && (text != "" && n > 0 ==> k > 0)
  {
    if text == "" || n == 0 then 0 else if text[0] == '\n' then 1 else 1 + LineLength(text[1..], n - 1)
  }

  const LINE: nat := 1023

  function Parse(text: string, l: Loader): Option<Loader>
    decreases |text|
  {
    if text == "" then Some(l)
    else
      var k := LineLength(text, LINE);
      match StepLine(l, text[..k])
      case None => None
      case Some(m) => Parse(text[k..], m)
  }

  // ----- Saving -----

  function HexChar(v: nat): (c: char)
    requires v < 16
    ensures IsHex(c) && HexDigit(c) == v && c <= 'F'
  {
    if v < 10 then ('0' as int + v) as char else ('A' as int + (v - 10)) as char
  }

  function Pow16(n: nat): nat {
    if n == 0 then 1 else 16 * Pow16(n - 1)
  }

  /** v with n digits. */
  function HexN(v: nat, n: nat): (s: string)
    ensures |s| == n && forall i :: 0 <= i < n ==> IsHex(s[i]) && s[i] <= 'F'
  {
    if n == 0 then "" else HexN(v / 16, n - 1) + [HexChar(v % 16)]
  }

  function DataLine(a: Word, b: Word): string {
    HexN(a, 8) + " " + HexN(b, 8) + "\n"
  }

  function WordsText(words: seq<Word>): string {
    if |words| < 2 then "" else WordsText(words[..|words| - 2]) + DataLine(words[|words| - 2], words[|words| - 1])
  }

  function CodeLine(code: Code): string {
    "CODE " + (if code.enabled then "1" else "0") + " " + code.name + "\n"
  }

  function CodeText(code: Code): string {
    CodeLine(code) + WordsText(code.words) + "\n"
  }

  function CodesText(codes: seq<Code>): string {
    if codes == [] then "" else CodesText(codes[..|codes| - 1]) + CodeText(codes[|codes| - 1])
  }

  function CatLine(cat: Category): string {
    "CAT " + cat.name + "\n"
  }

  function CatText(cat: Category): string {
    CatLine(cat) + "\n" + CodesText(cat.codes)
  }

  /** The saved file; a blank line precedes every category but the first. */
  function FileText(cats: seq<Category>): string {
    if cats == [] then ""
    else FileText(cats[..|cats| - 1]) + (if |cats| > 1 then "\n" else "") + CatText(cats[|cats| - 1])
  }

  // ----- What can be saved and loaded back -----

  predicate GoodName(name: string) {
    && 1 <= |name| <= 127 && !IsSpace(name[0])
    && forall i :: 0 <= i < |name| ==> name[i] != '\r' && name[i] != '\n' && name[i] != '\0'
  }

  predicate GoodCode(c: Code) {
    GoodName(c.name) && |c.words| % 2 == 0
  }

  predicate GoodCat(c: Category) {
    GoodName(c.name) && forall i :: 0 <= i < |c.codes| ==> GoodCode(c.codes[i])
  }

  /** What the printer can print: C strings, and codes of whole lines. */
  predicate Printable(c: Category) {
    && '\0' !in c.name
    && forall i :: 0 <= i < |c.codes| ==> '\0' !in c.codes[i].name && |c.codes[i].words| % 2 == 0
  }

  /** The loader's state after everything of cats, with the last category and code still open. */
  function Open(cats: seq<Category>): Loader {
    if cats == [] then Loader([], None, None)
    else
      var k := |cats| - 1;
      var c := cats[k];
      if c.codes == [] then Loader(cats[..k], Some(c), None)
      else Loader(cats[..k], Some(c.(codes := c.codes[..|c.codes| - 1])), Some(c.codes[|c.codes| - 1]))
  }

  lemma OpenCloses(cats: seq<Category>)
    ensures CloseCat(Open(cats)) == Loader(cats, None, None)
  {
    if cats != [] {
      var c := cats[|cats| - 1];
      assert c.codes != [] ==> c.codes[..|c.codes| - 1] + [c.codes[|c.codes| - 1]] == c.codes;
      assert cats[..|cats| - 1] + [c] == cats;
    }
  }

  // ----- Lines -----

  predicate OneLine(body: string) {
    forall i :: 0 <= i < |body| ==> body[i] != '\n' && body[i] != '\0'
  }

  lemma {:induction false} LineEnds(body: string, rest: string, n: nat)
    requires OneLine(body) && |body| < n
    ensures LineLength(body + "\n" + rest, n) == |body| + 1
    decreases n
  {
    var t := body + "\n" + rest;
    if body != "" {
      LineEnds(body[1..], rest, n - 1);
      assert t[1..] == body[1..] + "\n" + rest;
    }
  }

  /** A line is read up to its newline, or 1023 characters at a time. */
  lemma {:induction false} LongLines(text: string, n: nat)
    requires n <= LINE && |text| >= n && forall i :: 0 <= i < n ==> text[i] != '\n'
    ensures LINE == 1023 && LineLength(text, n) == n
    decreases n
  {
    if n > 0 { LongLines(text[1..], n - 1); }
  }

  lemma {:induction false} NoNul(line: string)
    requires forall i :: 0 <= i < |line| ==> line[i] != '\0'
    ensures CString(line) == line
  {
    if line != "" { NoNul(line[1..]); }
  }

  /** A printed line is one step of the loader. */
  lemma ParseLine(body: string, rest: string, l: Loader)
    requires OneLine(body) && |body| < LINE
    ensures Parse(body + "\n" + rest, l) ==
      match StepLine(l, body + "\n") case None => None case Some(m) => Parse(rest, m)
  {
    hide StepLine;
    var t := body + "\n" + rest;
    LineEnds(body, rest, LINE);
    assert t[..|body| + 1] == body + "\n" && t[|body| + 1..] == rest;
  }

  lemma ParseBlank(rest: string, l: Loader)
    ensures Parse("\n" + rest, l) == Parse(rest, l)
  {
    ParseLine("", rest, l);
    assert "" + "\n" + rest == "\n" + rest && "" + "\n" == "\n";
    assert CString("\n") == "\n";
  }

  lemma {:induction false} TakesName(name: string, n: nat)
    requires |name| <= n && forall i :: 0 <= i < |name| ==> name[i] != '\r' && name[i] != '\n'
    ensures TakeName(name + "\n", n) == name
    decreases n
  {
    if name != "" {
      TakesName(name[1..], n - 1);
      assert (name + "\n")[1..] == name[1..] + "\n";
    }
  }

  lemma ScansName(name: string)
    requires GoodName(name)
    ensures ScanName(" " + name + "\n") == Some(name)
  {
    var s := " " + name + "\n";
    assert s[1..] == name + "\n";
    assert SkipSpace(s) == SkipSpace(s[1..]);
    assert SkipSpace(name + "\n") == name + "\n";
    TakesName(name, 127);
  }

  lemma StepCat(l: Loader, cat: Category)
    requires GoodName(cat.name)
    ensures StepLine(l, CatLine(cat)) == Some(CloseCat(l).(cat := Some(Category(cat.name, []))))
  {
    hide ScanName, CloseCat;
    var s := CatLine(cat);
    NoNul(s);
    assert s[0] == 'C' && s[1] == 'A' && s[2] == 'T';
    assert s[..3] == "CAT" && s[3..] == " " + cat.name + "\n";
    ScansName(cat.name);
  }

  lemma ScansFlag(on: bool, rest: string)
    ensures ScanFlag(" " + (if on then "1" else "0") + " " + rest) == Some((on, " " + rest))
  {
    var d := if on then "1" else "0";
    var t, u := " " + d + " " + rest, d + " " + rest;
    assert t[1..] == u && u[0] == d[0] && u[1] == ' ';
    assert SkipSpace(t) == SkipSpace(u) == u;
    assert TakeDigits(u[1..]) == "";
    assert TakeDigits(u) == [u[0]] + TakeDigits(u[1..]) == d;
    assert u[|d|..] == " " + rest;
    assert d[1..] == "" && NonZero(d) == on;
    assert t == " " + (if on then "1" else "0") + " " + rest;
    assert u[0] != '-' && u[0] != '+';
  }

  lemma ScansCode(code: Code)
    requires GoodName(code.name)
    ensures ScanCode(CodeLine(code)) == Some((code.enabled, code.name))
  {
    hide ScanName, ScanFlag;
    var s := CodeLine(code);
    assert s[..4] == "CODE";
    assert s[4..] == " " + (if code.enabled then "1" else "0") + " " + (code.name + "\n");
    ScansFlag(code.enabled, code.name + "\n");
    assert " " + (code.name + "\n") == " " + code.name + "\n";
    ScansName(code.name);
  }

  lemma StepCode(l: Loader, code: Code)
    requires GoodName(code.name) && l.cat.Some?
    ensures StepLine(l, CodeLine(code)) == Some(CloseCode(l).(code := Some(Code(code.name, code.enabled, []))))
  {
    hide ScanCode, CloseCode;
    var s := CodeLine(code);
    NoNul(s);
    assert s[0] == 'C' && s[1] == 'O' && s[2] == 'D' && s[3] == 'E';
    ScansCode(code);
  }

  /** White space, as scanf takes it. */
  lemma SpacesAre(c: char)
    ensures IsSpace(c) <==> c as int == 32 || 9 <= c as int <= 13
  {
  }

  /** Digits, decimal and hexadecimal in either case, and their values. */
  lemma DigitsAre(c: char)
    ensures IsDigit(c) <==> c in {'0', '1', '2', '3', '4', '5', '6', '7', '8', '9'}
    ensures IsHex(c) <==> IsDigit(c) || c in {'A', 'B', 'C', 'D', 'E', 'F'} || c in {'a', 'b', 'c', 'd', 'e', 'f'}
    ensures c in {'A', 'B', 'C', 'D', 'E', 'F'} ==> HexDigit(c) == 10 + (c as int - 65)
    ensures c in {'a', 'b', 'c', 'd', 'e', 'f'} ==> HexDigit(c) == 10 + (c as int - 97)
    ensures IsDigit(c) ==> IsHex(c) && HexDigit(c) == c as int - 48
  {
    assert IsDigit(c) ==> c as int in {48, 49, 50, 51, 52, 53, 54, 55, 56, 57};
    assert 'A' <= c <= 'F' ==> c as int in {65, 66, 67, 68, 69, 70};
    assert 'a' <= c <= 'f' ==> c as int in {97, 98, 99, 100, 101, 102};
  }

  /** The two keywords, in any case. */
  lemma KeywordsAre(s: string)
    ensures HasKeyword(s, "CAT") <==>
      |s| >= 3 && s[0] in {'C', 'c'} && s[1] in {'A', 'a'} && s[2] in {'T', 't'}
    ensures HasKeyword(s, "CODE") <==>
      |s| >= 4 && s[0] in {'C', 'c'} && s[1] in {'O', 'o'} && s[2] in {'D', 'd'} && s[3] in {'E', 'e'}
  {
    UpperIs();
    var cat, code := "CAT", "CODE";
    assert cat[0] == 'C' && cat[1] == 'A' && cat[2] == 'T';
    assert code[0] == 'C' && code[1] == 'O' && code[2] == 'D' && code[3] == 'E';
    if |s| >= 4 && Upper(s[0]) == 'C' && Upper(s[1]) == 'O' && Upper(s[2]) == 'D' && Upper(s[3]) == 'E' {
      forall i | 0 <= i < 4 ensures Upper(s[i]) == code[i] { assert i == 0 || i == 1 || i == 2 || i == 3; }
    }
    if |s| >= 3 && Upper(s[0]) == 'C' && Upper(s[1]) == 'A' && Upper(s[2]) == 'T' {
      forall i | 0 <= i < 3 ensures Upper(s[i]) == cat[i] { assert i == 0 || i == 1 || i == 2; }
    }
  }

  lemma UpperIs()
    ensures forall c: char :: (Upper(c) == 'C' <==> c in {'C', 'c'}) && (Upper(c) == 'A' <==> c in {'A', 'a'})
    ensures forall c: char :: (Upper(c) == 'T' <==> c in {'T', 't'}) && (Upper(c) == 'O' <==> c in {'O', 'o'})
    ensures forall c: char :: (Upper(c) == 'D' <==> c in {'D', 'd'}) && (Upper(c) == 'E' <==> c in {'E', 'e'})
  {
  }

  /** Lines that are errors: a code without a category, data without a code, and keywords in lower case, which
      the keyword test takes and the conversion does not. */
  lemma LineErrors(l: Loader, code: Code, a: Word, b: Word)
    requires GoodName(code.name)
    ensures l.cat.None? ==> StepLine(l, CodeLine(code)) == None
    ensures l.code.None? ==> StepLine(l, DataLine(a, b)) == None
    ensures StepLine(l, "cat " + code.name + "\n") == None && StepLine(l, "code 1 " + code.name + "\n") == None
  {
    hide ScanCode, CloseCode, HexN, CloseCat;
    var s := CodeLine(code);
    NoNul(s);
    assert s[0] == 'C' && s[1] == 'O' && s[2] == 'D' && s[3] == 'E';
    var d := DataLine(a, b);
    NoNul(d);
    DataIsNoKeyword(a, b);
    LowerCase(l, code.name);
  }

  lemma LowerCase(l: Loader, name: string)
    requires GoodName(name)
    ensures StepLine(l, "cat " + name + "\n") == None && StepLine(l, "code 1 " + name + "\n") == None
  {
    hide CloseCode, CloseCat, ScanName, ScanFlag, ScanData;
    var s, t := "cat " + name + "\n", "code 1 " + name + "\n";
    NoNul(s);
    NoNul(t);
    assert s[0] == 'c' && s[1] == 'a' && s[2] == 't' && t[0] == 'c' && t[1] == 'o' && t[2] == 'd' && t[3] == 'e';
    assert s[..3][0] == 'c' && t[..4][0] == 'c';
  }

  /** Comments and blank lines change nothing, whatever stands before them in blanks and tabs. */
  lemma {:induction false} SkippedLines(l: Loader, blanks: string, rest: string)
    requires forall i :: 0 <= i < |blanks| ==> blanks[i] == ' ' || blanks[i] == '\t'
    requires rest == "" || rest[0] == '#' || rest[0] == '\r' || rest[0] == '\n' || rest[0] == '\0'
    ensures StepLine(l, blanks + rest) == Some(l)
  {
    Unblanked(blanks, rest);
  }

  lemma {:induction false} Unblanked(blanks: string, rest: string)
    requires forall i :: 0 <= i < |blanks| ==> blanks[i] == ' ' || blanks[i] == '\t'
    requires rest == "" || (rest[0] != ' ' && rest[0] != '\t')
    ensures Trimmed(CString(blanks + rest)) == CString(rest)
  {
    if blanks == "" {
      assert blanks + rest == rest;
    } else {
      assert (blanks + rest)[1..] == blanks[1..] + rest;
      Unblanked(blanks[1..], rest);
    }
  }

  lemma {:induction false} HexReads(v: nat, n: nat)
    requires v < Pow16(n)
    ensures HexValue(HexN(v, n)) == v
    decreases n
  {
    hide HexChar;
    if n > 0 {
      HexReads(v / 16, n - 1);
      var s := HexN(v, n);
      assert s[..n - 1] == HexN(v / 16, n - 1) && s[n - 1] == HexChar(v % 16);
    }
  }

  lemma {:induction false} TakesHex(d: string, rest: string)
    requires forall i :: 0 <= i < |d| ==> IsHex(d[i])
    ensures TakeHex(d + rest, |d|) == d
  {
    if d != "" {
      TakesHex(d[1..], rest);
      assert (d + rest)[1..] == d[1..] + rest;
    }
  }

  lemma Pow16Word()
    ensures Pow16(8) == 0x1_0000_0000
  {
    assert Pow16(4) == 0x1_0000;
    assert Pow16(5) == 0x10_0000 && Pow16(6) == 0x100_0000 && Pow16(7) == 0x1000_0000;
  }

  /** Eight digits are neither a sign nor a prefix. */
  lemma ScansDigits(s: string, d: string, rest: string)
    requires SkipSpace(s) == d + rest && TakeHex(d + rest, 8) == d && |d| == 8
    requires forall i :: 0 <= i < 8 ==> IsHex(d[i]) && d[i] <= 'F'
    ensures ScanHex(s) == Some((HexValue(d) % 0x1_0000_0000, rest))
  {
    hide SkipSpace, TakeHex, HexValue;
    var t := d + rest;
    assert t[0] == d[0] && t[1] == d[1];
    assert t[8..] == rest;
  }

  lemma SkipsBlank(t: string, blank: bool)
    requires t != "" && !IsSpace(t[0])
    ensures SkipSpace((if blank then " " else "") + t) == t
  {
    var s := (if blank then " " else "") + t;
    assert SkipSpace(t) == t;
    if blank { assert s[1..] == t; } else { assert s == t; }
  }

  /** Eight printed digits, even after a blank, read back as the word. */
  lemma ScansHex(w: Word, rest: string, blank: bool)
    ensures ScanHex((if blank then " " else "") + (HexN(w, 8) + rest)) == Some((w, rest))
  {
    hide HexN, TakeHex, HexValue, SkipSpace, ScanHex;
    var d := HexN(w, 8);
    assert (d + rest)[0] == d[0];
    SkipsBlank(d + rest, blank);
    TakesHex(d, rest);
    Pow16Word();
    HexReads(w, 8);
    ScansDigits((if blank then " " else "") + (d + rest), d, rest);
  }

  /** A data line is never taken for a CAT or CODE line: neither T nor O is a hexadecimal digit. */
  lemma DataIsNoKeyword(a: Word, b: Word)
    ensures
      var s := DataLine(a, b);
      !HasKeyword(s, "CAT") && !HasKeyword(s, "CODE") && !IsSkipped(s) && Trimmed(s) == s
  {
    hide HexN;
    var s, d := DataLine(a, b), HexN(a, 8);
    assert s[0] == d[0] && s[1] == d[1] && s[2] == d[2];
    assert Upper(s[2]) != 'T' && Upper(s[1]) != 'O';
  }

  lemma StepData(l: Loader, a: Word, b: Word)
    requires l.code.Some?
    ensures StepLine(l, DataLine(a, b)) == Some(l.(code := Some(l.code.value.(words := l.code.value.words + [a, b]))))
  {
    hide HexN, ScanHex, HasKeyword, Trimmed, IsSkipped;
    var s := DataLine(a, b);
    NoNul(s);
    DataIsNoKeyword(a, b);
    ScansHex(a, " " + HexN(b, 8) + "\n", false);
    ScansHex(b, "\n", true);
    assert s == "" + (HexN(a, 8) + (" " + HexN(b, 8) + "\n"));
    assert " " + HexN(b, 8) + "\n" == " " + (HexN(b, 8) + "\n");
  }

  // ----- Loading what was saved -----

  lemma {:induction false} ParseWords(words: seq<Word>, rest: string, l: Loader)
    requires |words| % 2 == 0 && l.code.Some?
    ensures Parse(WordsText(words) + rest, l) ==
      Parse(rest, l.(code := Some(l.code.value.(words := l.code.value.words + words))))
  {
    hide StepLine, DataLine, Parse;
    if words == [] {
      assert WordsText(words) + rest == rest && l.code.value.words + words == l.code.value.words;
    } else {
      var k := |words| - 2;
      var a, b := words[k], words[k + 1];
      assert WordsText(words) + rest == WordsText(words[..k]) + (DataLine(a, b) + rest);
      ParseWords(words[..k], DataLine(a, b) + rest, l);
      var m := l.(code := Some(l.code.value.(words := l.code.value.words + words[..k])));
      StepData(m, a, b);
      ParseData(a, b, rest, m);
      assert l.code.value.words + words == l.code.value.words + words[..k] + [a, b];
    }
  }

  lemma ParseData(a: Word, b: Word, rest: string, l: Loader)
    ensures Parse(DataLine(a, b) + rest, l)
         == match StepLine(l, DataLine(a, b)) case None => None case Some(m) => Parse(rest, m)
  {
    hide StepLine, HexN, Parse;
    var body := HexN(a, 8) + " " + HexN(b, 8);
    ParseLine(body, rest, l);
    assert DataLine(a, b) == body + "\n";
  }

  lemma ParseCode(code: Code, rest: string, l: Loader)
    requires GoodCode(code) && l.cat.Some?
    ensures Parse(CodeText(code) + rest, l) == Parse(rest, CloseCode(l).(code := Some(code)))
  {
    hide StepLine, Parse, WordsText, CloseCode;
    var body := "CODE " + (if code.enabled then "1" else "0") + " " + code.name;
    var after := WordsText(code.words) + ("\n" + rest);
    ParseLine(body, after, l);
    StepCode(l, code);
    assert CodeLine(code) == body + "\n" && CodeText(code) + rest == body + "\n" + after;
    var m := CloseCode(l).(code := Some(Code(code.name, code.enabled, [])));
    ParseWords(code.words, "\n" + rest, m);
    assert [] + code.words == code.words;
    ParseBlank(rest, CloseCode(l).(code := Some(code)));
  }

  lemma {:induction false} ParseCodes(cats: seq<Category>, name: string, codes: seq<Code>, rest: string)
    requires forall i :: 0 <= i < |codes| ==> GoodCode(codes[i])
    ensures Parse(CodesText(codes) + rest, Open(cats + [Category(name, [])])) ==
      Parse(rest, Open(cats + [Category(name, codes)]))
    decreases |codes|
  {
    hide Parse, CodeText, Open;
    if codes == [] {
      assert CodesText(codes) + rest == rest;
    } else {
      var k := |codes| - 1;
      assert CodesText(codes) + rest == CodesText(codes[..k]) + (CodeText(codes[k]) + rest);
      ParseCodes(cats, name, codes[..k], CodeText(codes[k]) + rest);
      OpensCode(cats, Category(name, codes[..k]), codes[k]);
      ParseCode(codes[k], rest, Open(cats + [Category(name, codes[..k])]));
      assert codes[..k] + [codes[k]] == codes;
    }
  }

  lemma OpensCode(cats: seq<Category>, c: Category, code: Code)
    ensures
      var l := Open(cats + [c]);
      l.cat.Some? && CloseCode(l).(code := Some(code)) == Open(cats + [c.(codes := c.codes + [code])])
  {
    assert (cats + [c])[..|cats|] == cats;
    var c' := c.(codes := c.codes + [code]);
    assert (cats + [c'])[..|cats|] == cats && c'.codes[..|c.codes|] == c.codes;
    if c.codes != [] { assert c.codes[..|c.codes| - 1] + [c.codes[|c.codes| - 1]] == c.codes; }
  }

  lemma ParseCat(cats: seq<Category>, cat: Category, rest: string)
    requires GoodCat(cat)
    ensures Parse(CatText(cat) + rest, Open(cats)) == Parse(rest, Open(cats + [cat]))
  {
    hide StepLine, Parse, CodesText, Open, CloseCat;
    var body, after := "CAT " + cat.name, "\n" + (CodesText(cat.codes) + rest);
    ParseLine(body, after, Open(cats));
    StepCat(Open(cats), cat);
    assert CatLine(cat) == body + "\n" && CatText(cat) + rest == body + "\n" + after;
    OpenCloses(cats);
    OpensCat(cats, cat.name);
    ParseBlank(CodesText(cat.codes) + rest, Open(cats + [Category(cat.name, [])]));
    ParseCodes(cats, cat.name, cat.codes, rest);
    assert cat == Category(cat.name, cat.codes);
  }

  lemma OpensCat(cats: seq<Category>, name: string)
    ensures Open(cats + [Category(name, [])]) == Loader(cats, Some(Category(name, [])), None)
  {
    assert (cats + [Category(name, [])])[..|cats|] == cats;
  }

  lemma {:induction false} ParseFile(cats: seq<Category>, rest: string)
    requires forall i :: 0 <= i < |cats| ==> GoodCat(cats[i])
    ensures Parse(FileText(cats) + rest, Open([])) == Parse(rest, Open(cats))
    decreases |cats|
  {
    hide Parse, CatText, Open;
    if cats == [] {
      assert FileText(cats) + rest == rest;
    } else {
      var k := |cats| - 1;
      var after := CatText(cats[k]) + rest;
      var gap := if |cats| > 1 then "\n" else "";
      assert FileText(cats) + rest == FileText(cats[..k]) + (gap + after);
      ParseFile(cats[..k], gap + after);
      if |cats| > 1 { ParseBlank(after, Open(cats[..k])); } else { assert gap + after == after; }
      ParseCat(cats[..k], cats[k], rest);
      assert cats[..k] + [cats[k]] == cats;
    }
  }

  /** What Load makes of a file's text; None is the error result. */
  function Loaded(text: string): Option<seq<Category>> {
    match Parse(text, Loader([], None, None))
    case None => None
    case Some(l) => Some(CloseCat(l).done)
  }

  /** Every well-formed list of categories is loaded back as it was saved. */
  lemma SaveThenLoad(cats: seq<Category>)
    requires forall i :: 0 <= i < |cats| ==> GoodCat(cats[i])
    ensures Loaded(FileText(cats)) == Some(cats)
  {
    hide CloseCat, Open, FileText;
    ParseFile(cats, "");
    assert FileText(cats) + "" == FileText(cats);
    assert Open([]) == Loader([], None, None) by { OpensNothing(); }
    OpenCloses(cats);
  }

  lemma OpensNothing()
    ensures Open([]) == Loader([], None, None)
  {
  }

  lemma {:induction false} SkipsAll(s: string)
    ensures SkipSpace(s) == "" || !IsSpace(SkipSpace(s)[0])
  {
    if s != "" && IsSpace(s[0]) { SkipsAll(s[1..]); }
  }

  /** Exactly the names of up to 127 characters without a leading blank survive the conversion. */
  lemma NameSurvivesIff(name: string)
    requires name != "" && forall i :: 0 <= i < |name| ==> name[i] != '\r' && name[i] != '\n' && name[i] != '\0'
    ensures ScanName(" " + name + "\n") == Some(name) <==> |name| <= 127 && !IsSpace(name[0])
  {
    if GoodName(name) {
      ScansName(name);
    } else {
      SkipsAll(" " + name + "\n");
    }
  }

  // ----- The file object -----

  class ARCodeFile {
    var categories: seq<Category>

    constructor ()
      ensures categories == []
    {
      categories := [];
    }

    /** Load; a file that is not there is no error and changes nothing. */
    method Load(file: Option<string>) returns (ok: bool)
      modifies this
      ensures file.None? ==> ok && categories == old(categories)
      ensures file.Some? ==> (ok <==> Loaded(file.value).Some?)
      ensures file.Some? && ok ==> categories == Loaded(file.value).value
    {
      if file.None? { return true; }
      hide StepLine, CloseCat;
      var text := file.value;
      var l := Loader([], None, None);
      while text != ""
        invariant Parse(text, l) == Parse(file.value, Loader([], None, None))
        decreases |text|
      {
        var k := LineLength(text, LINE);
        var next := StepLine(l, text[..k]);
        if next.None? {
          categories := l.done;
          return false;
        }
        l, text := next.value, text[k..];
      }
      categories := CloseCat(l).done;
      return true;
    }

    method Save() returns (text: string)
      requires forall i :: 0 <= i < |categories| ==> Printable(categories[i])
      ensures text == FileText(categories)
      ensures (forall i :: 0 <= i < |categories| ==> GoodCat(categories[i])) ==> Loaded(text) == Some(categories)
    {
      hide FileText, Loaded, GoodCat, Printable;
      text := "";
      var i := 0;
      FileTextStep(categories, 0);
      while i < |categories|
        invariant 0 <= i <= |categories| && text == FileText(categories[..i])
      {
        if i != 0 { text := text + "\n"; }
        var printed := PrintCategory(categories[i]);
        text := text + printed;
        FileTextStep(categories, i);
        i := i + 1;
      }
      assert categories[..i] == categories;
      if forall i :: 0 <= i < |categories| ==> GoodCat(categories[i]) { SaveThenLoad(categories); }
    }

    static method PrintCategory(cat: Category) returns (text: string)
      requires Printable(cat)
      ensures text == CatText(cat)
    {
      hide CodesText;
      text := CatLine(cat) + "\n";
      ghost var head := text;
      var j := 0;
      CodesTextStep(cat.codes, 0);
      while j < |cat.codes|
        invariant 0 <= j <= |cat.codes| && text == head + CodesText(cat.codes[..j])
      {
        var code := cat.codes[j];
        var lines := PrintWords(code.words);
        text := text + (CodeLine(code) + lines + "\n");
        CodesTextStep(cat.codes, j);
        j := j + 1;
      }
      assert cat.codes[..j] == cat.codes;
    }

    static method PrintWords(words: seq<Word>) returns (text: string)
      requires |words| % 2 == 0
      ensures text == WordsText(words)
    {
      hide DataLine;
      text := "";
      var i := 0;
      while i < |words|
        invariant 0 <= i <= |words| && i % 2 == 0 && text == WordsText(words[..i])
      {
        text := text + DataLine(words[i], words[i + 1]);
        assert words[..i + 2][..i] == words[..i];
        i := i + 2;
      }
      assert words[..i] == words;
    }
  }

  lemma CodesTextStep(codes: seq<Code>, j: nat)
    requires j <= |codes|
    ensures j == 0 ==> CodesText(codes[..j]) == ""
    ensures j < |codes| ==> CodesText(codes[..j + 1]) == CodesText(codes[..j]) + CodeText(codes[j])
  {
    hide CodeText;
    if j < |codes| { assert codes[..j + 1][..j] == codes[..j]; }
  }

  lemma FileTextStep(cats: seq<Category>, i: nat)
    requires i <= |cats|
    ensures i == 0 ==> FileText(cats[..i]) == ""
    ensures i < |cats| ==>
      FileText(cats[..i + 1]) == FileText(cats[..i]) + (if i > 0 then "\n" else "") + CatText(cats[i])
  {
    hide CatText;
    if i < |cats| { assert cats[..i + 1][..i] == cats[..i]; }
  }
}
