/** The preference file: how the store is printed, and the lexer and grammar that read it back. */
module PrefText {
  import opened Options
  import opened PrefStore

  // ---------- printing ----------

  function PrintEntry(e: Entry): string {
    match e
    case Pair(key, value) => key + " = " + value + "\n"
    case Remark(text) => "###" + text + "\n"
  }

  function PrintEntries(e: seq<Entry>): string {
    if |e| == 0 then "" else PrintEntries(e[..|e| - 1]) + PrintEntry(e[|e| - 1])
  }

  function PrintPart(p: Part): string {
    match p
    case Sect(name, entries) => "[" + name + "]\n" + PrintEntries(entries) + "\n"
    case Note(text) => "###" + text + "\n"
  }

  /** Every part is followed by an empty line, and the file ends with one. */
  function PrintParts(p: seq<Part>): string {
    if |p| == 0 then "" else PrintParts(p[..|p| - 1]) + PrintPart(p[|p| - 1]) + "\n"
  }

  function Print(p: seq<Part>): string {
    PrintParts(p) + "\n"
  }

  // ---------- the lexer ----------

  datatype Token =
    | Eq
    | LeftBracket
    | RightBracket
    | Key(s: string)
    | Comment(s: string)
    | Value(s: string)
    | SecName(s: string)

  datatype Mode = Initial | InValue | InSecName

  predicate KeyChar(c: char) {
    c == '_' || c == '-' || 'a' <= c <= 'z' || 'A' <= c <= 'Z' || '0' <= c <= '9'
  }

  predicate Blank(c: char) {
    c == ' ' || c == '\t'
  }

  predicate LineChar(c: char) {
    c != '\n'
  }

  predicate NameChar(c: char) {
    c != '\n' && c != ']'
  }

  /** Length of the longest prefix of characters in the class. */
  function Span(s: string, p: char -> bool): (n: nat)
    ensures n <= |s| && (forall i :: 0 <= i < n ==> p(s[i])) && (n < |s| ==> !p(s[n]))
  {
    if |s| > 0 && p(s[0]) then 1 + Span(s[1..], p) else 0
  }

  function Lex(s: string, mode: Mode): seq<Token>
    decreases |s|
  {
    if |s| == 0 then []
    else
      match mode
      case Initial =>
        if s[0] == '=' then [Eq] + Lex(s[1 + Span(s[1..], Blank)..], InValue)
        else if s[0] == '[' then [LeftBracket] + Lex(s[1..], InSecName)
        else if s[0] == ']' then [RightBracket] + Lex(s[1..], Initial)
        else if KeyChar(s[0]) then var n := Span(s, KeyChar); [Key(s[..n])] + Lex(s[n..], Initial)
        else if s[0] == '#' then var n := Span(s, LineChar); [Comment(s[..n])] + Lex(s[n..], Initial)
        else Lex(s[1..], Initial)
      case InValue =>
        if s[0] == '\n' then Lex(s[1..], Initial)
        else var n := Span(s, LineChar); [Value(s[..n])] + Lex(s[n..], InValue)
      case InSecName =>
        if !NameChar(s[0]) then Lex(s[1..], InSecName)
        else var n := Span(s, NameChar); [SecName(s[..n])] + Lex(s[n..], Initial)
  }

  // ---------- the grammar ----------

  function AddEntry(done: seq<Part>, e: Entry): seq<Part>
    requires |done| > 0 && done[|done| - 1].Sect?
  {
    var last := done[|done| - 1];
    done[..|done| - 1] + [Sect(last.name, last.entries + [e])]
  }

  predicate InSection(done: seq<Part>) {
    |done| > 0 && done[|done| - 1].Sect?
  }

  /** Sections of key-value pairs and comments. The grammar shifts, so once a section has begun every comment up
      to the next one belongs to it. Any error rejects the file. */
  function Parse(t: seq<Token>, done: seq<Part>): Option<seq<Part>>
    decreases |t|
  {
    if |t| == 0 then Some(done)
    else if t[0].Comment? then
      Parse(t[1..], if InSection(done) then AddEntry(done, Remark(t[0].s)) else done + [Note(t[0].s)])
    else if |t| >= 3 && t[0].LeftBracket? && t[1].SecName? && t[2].RightBracket? then
      Parse(t[3..], done + [Sect(t[1].s, [])])
    else if |t| >= 3 && t[0].Key? && t[1].Eq? && t[2].Value? && InSection(done) then
      Parse(t[3..], AddEntry(done, Pair(t[0].s, t[2].s)))
    else None
  }

  function Read(text: string): Option<seq<Part>> {
    Parse(Lex(text, Initial), [])
  }

  // ---------- round trip ----------

  predicate LegalKey(s: string) {
    |s| > 0 && forall c :: c in s ==> KeyChar(c)
  }

  predicate LegalValue(s: string) {
    |s| > 0 && !Blank(s[0]) && forall c :: c in s ==> LineChar(c)
  }

  predicate LegalName(s: string) {
    |s| > 0 && forall c :: c in s ==> NameChar(c)
  }

  predicate LegalComment(s: string) {
    forall c :: c in s ==> LineChar(c)
  }

  predicate PlainEntry(e: Entry) {
    if e.Pair? then LegalKey(e.key) && LegalComment(e.value) else LegalComment(e.text)
  }

  predicate PlainPart(p: Part) {
    if p.Sect? then LegalName(p.name) && (forall e :: e in p.entries ==> PlainEntry(e)) else LegalComment(p.text)
  }

  /** Legal keys and section names; values and comments of one line each. */
  predicate Plain(p: seq<Part>) {
    forall x :: x in p ==> PlainPart(x)
  }

  /** The value as the lexer sees it: leading blanks go with the equals sign. */
  function Trim(s: string): string {
    s[Span(s, Blank)..]
  }

  predicate ReadableEntry(e: Entry) {
    e.Pair? ==> Trim(e.value) != ""
  }

  predicate ReadablePart(p: Part) {
    p.Sect? ==> forall e :: e in p.entries ==> ReadableEntry(e)
  }

  predicate Readable(p: seq<Part>) {
    forall x :: x in p ==> ReadablePart(x)
  }

  predicate LegalPart(p: Part) {
    p.Sect? ==> forall e :: e in p.entries && e.Pair? ==> LegalValue(e.value)
  }

  /** Every value is nonempty and starts with something other than a blank. */
  predicate Legal(p: seq<Part>) {
    Plain(p) && forall x :: x in p ==> LegalPart(x)
  }

  function TrimEntry(e: Entry): Entry {
    if e.Pair? then Pair(e.key, Trim(e.value)) else e
  }

  function TrimEntries(e: seq<Entry>): (r: seq<Entry>)
    ensures |r| == |e|
  {
    seq(|e|, i requires 0 <= i < |e| => TrimEntry(e[i]))
  }

  function TrimPart(p: Part): Part {
    if p.Sect? then Sect(p.name, TrimEntries(p.entries)) else p
  }

  function TrimAll(p: seq<Part>): (r: seq<Part>)
    ensures |r| == |p|
  {
    seq(|p|, i requires 0 <= i < |p| => TrimPart(p[i]))
  }

  /** What one reading back makes of a part: comments grow by three marks, and a comment after a section ends up in
      that section. */
  function Absorb(done: seq<Part>, p: Part): seq<Part> {
    match p
    case Sect(name, entries) => done + [Sect(name, Marked(entries))]
    case Note(text) => if InSection(done) then AddEntry(done, Remark("###" + text)) else done + [Note("###" + text)]
  }

  function Marked(e: seq<Entry>): (r: seq<Entry>)
    ensures |r| == |e|
  {
    seq(|e|, i requires 0 <= i < |e| => if e[i].Pair? then e[i] else Remark("###" + e[i].text))
  }

  function ReadBack(p: seq<Part>): seq<Part> {
    if |p| == 0 then [] else Absorb(ReadBack(p[..|p| - 1]), p[|p| - 1])
  }

  function ValueTokens(v: string): seq<Token> {
    if v == "" then [] else [Value(v)]
  }

  function EntryTokens(e: Entry): seq<Token> {
    match e
    case Pair(key, value) => [Key(key), Eq] + ValueTokens(Trim(value))
    case Remark(text) => [Comment("###" + text)]
  }

  function EntriesTokens(e: seq<Entry>): seq<Token> {
    if |e| == 0 then [] else EntriesTokens(e[..|e| - 1]) + EntryTokens(e[|e| - 1])
  }

  function PartTokens(p: Part): seq<Token> {
    match p
    case Sect(name, entries) => [LeftBracket, SecName(name), RightBracket] + EntriesTokens(entries)
    case Note(text) => [Comment("###" + text)]
  }

  function PartsTokens(p: seq<Part>): seq<Token> {
    if |p| == 0 then [] else PartsTokens(p[..|p| - 1]) + PartTokens(p[|p| - 1])
  }

  lemma {:induction false} SpanIs(a: string, b: string, p: char -> bool)
    requires (forall c :: c in a ==> p(c)) && (|b| > 0 ==> !p(b[0]))
    ensures Span(a + b, p) == |a|
  {
    var s := a + b;
    forall i | 0 <= i < |a| ensures p(s[i]) {
      assert s[i] == a[i];
    }
    assert |b| > 0 ==> s[|a|] == b[0];
  }

  lemma LexBreak(r: string)
    ensures Lex("\n" + r, Initial) == Lex(r, Initial) == Lex("\n" + r, InValue) == Lex(" " + r, Initial)
  {
    assert ("\n" + r)[1..] == r && (" " + r)[1..] == r;
  }

  lemma LexWord(a: string, r: string)
    requires LegalKey(a) && (|r| > 0 ==> !KeyChar(r[0]))
    ensures Lex(a + r, Initial) == [Key(a)] + Lex(r, Initial)
  {
    SpanIs(a, r, KeyChar);
    assert (a + r)[..|a|] == a && (a + r)[|a|..] == r && (a + r)[0] == a[0] && a[0] in a;
  }

  lemma LexEq(blanks: string, r: string)
    requires Span(blanks + r, Blank) == |blanks|
    ensures Lex("=" + (blanks + r), Initial) == [Eq] + Lex(r, InValue)
  {
    var s := "=" + (blanks + r);
    assert s[1..] == blanks + r && s[1 + |blanks|..] == r;
  }

  /** After the equals sign, blanks are dropped; what is left of the line is the value, if anything is. */
  lemma LexValue(v: string, r: string)
    requires LegalComment(v)
    ensures Lex("= " + v + "\n" + r, Initial) == [Eq] + ValueTokens(Trim(v)) + Lex(r, Initial)
  {
    var end := "\n" + r;
    var s := "= " + v + "\n" + r;
    hide Lex;
    var n := Span(v, Blank);
    var skipped := " " + v[..n];
    assert s == "=" + (skipped + (Trim(v) + end));
    SpanIs(skipped, Trim(v) + end, Blank);
    hide Span;
    LexEq(skipped, Trim(v) + end);
    LexBreak(r);
    if Trim(v) == "" {
      assert Trim(v) + end == end;
    } else {
      LexRest(Trim(v), end);
    }
  }

  lemma LexRest(a: string, r: string)
    requires |a| > 0 && (forall c :: c in a ==> LineChar(c)) && (|r| > 0 ==> !LineChar(r[0]))
    ensures Lex(a + r, InValue) == [Value(a)] + Lex(r, InValue)
  {
    SpanIs(a, r, LineChar);
    assert (a + r)[..|a|] == a && (a + r)[|a|..] == r && (a + r)[0] == a[0] && a[0] in a;
  }

  lemma LexName(a: string, r: string)
    requires LegalName(a) && (|r| > 0 ==> !NameChar(r[0]))
    ensures Lex(a + r, InSecName) == [SecName(a)] + Lex(r, Initial)
  {
    SpanIs(a, r, NameChar);
    assert (a + r)[..|a|] == a && (a + r)[|a|..] == r && (a + r)[0] == a[0] && a[0] in a;
  }

  lemma LexBrackets(r: string)
    ensures Lex("[" + r, Initial) == [LeftBracket] + Lex(r, InSecName)
    ensures Lex("]" + r, Initial) == [RightBracket] + Lex(r, Initial)
  {
    assert ("[" + r)[1..] == r && ("]" + r)[1..] == r;
  }

  lemma LexMark(a: string, r: string)
    requires |a| > 0 && a[0] == '#' && (forall c :: c in a ==> LineChar(c)) && (|r| > 0 ==> !LineChar(r[0]))
    ensures Lex(a + r, Initial) == [Comment(a)] + Lex(r, Initial)
  {
    SpanIs(a, r, LineChar);
    assert (a + r)[..|a|] == a && (a + r)[|a|..] == r && (a + r)[0] == a[0];
  }

  lemma LexComment(text: string, r: string)
    requires LegalComment(text)
    ensures Lex("###" + text + "\n" + r, Initial) == [Comment("###" + text)] + Lex(r, Initial)
  {
    hide Lex;
    LexMark("###" + text, "\n" + r);
    LexBreak(r);
    assert "###" + text + "\n" + r == ("###" + text) + ("\n" + r);
  }

  lemma LexPair(key: string, value: string, r: string)
    requires LegalKey(key) && LegalComment(value)
    ensures Lex(key + " = " + value + "\n" + r, Initial) == [Key(key), Eq] + ValueTokens(Trim(value)) + Lex(r, Initial)
  {
    hide Lex, Trim;
    var right := "= " + value + "\n" + r;
    assert key + " = " + value + "\n" + r == key + (" " + right);
    LexWord(key, " " + right);
    LexBreak(right);
    LexValue(value, r);
  }

  lemma LexHeader(name: string, r: string)
    requires LegalName(name)
    ensures Lex("[" + name + "]\n" + r, Initial) == [LeftBracket, SecName(name), RightBracket] + Lex(r, Initial)
  {
    hide Lex;
    var end := "\n" + r;
    assert "[" + name + "]\n" + r == "[" + (name + ("]" + end));
    LexBrackets(name + ("]" + end));
    LexName(name, "]" + end);
    LexBrackets(end);
    LexBreak(r);
  }

  lemma LexEntry(e: Entry, r: string)
    requires PlainEntry(e)
    ensures Lex(PrintEntry(e) + r, Initial) == EntryTokens(e) + Lex(r, Initial)
  {
    hide Lex;
    match e
    case Pair(key, value) => LexPair(key, value, r);
    case Remark(text) => LexComment(text, r);
  }

  lemma {:induction false} LexEntries(e: seq<Entry>, r: string)
    requires forall x :: x in e ==> PlainEntry(x)
    ensures Lex(PrintEntries(e) + r, Initial) == EntriesTokens(e) + Lex(r, Initial)
  {
    hide Lex, PrintEntry, EntryTokens, PlainEntry;
    if |e| == 0 {
      assert "" + r == r;
    } else {
      var n := |e| - 1;
      var tail := PrintEntry(e[n]) + r;
      assert PrintEntries(e) + r == PrintEntries(e[..n]) + tail;
      LexEntries(e[..n], tail);
      LexEntry(e[n], r);
    }
  }

  lemma LexPart(p: Part, r: string)
    requires PlainPart(p)
    ensures Lex(PrintPart(p) + r, Initial) == PartTokens(p) + Lex(r, Initial)
  {
    hide Lex, PlainEntry;
    match p
    case Sect(name, entries) =>
      var tail := PrintEntries(entries) + ("\n" + r);
      assert PrintPart(p) + r == "[" + name + "]\n" + tail;
      LexHeader(name, tail);
      LexEntries(entries, "\n" + r);
      LexBreak(r);
    case Note(text) => LexComment(text, r);
  }

  lemma {:induction false} LexParts(p: seq<Part>, r: string)
    requires Plain(p)
    ensures Lex(PrintParts(p) + r, Initial) == PartsTokens(p) + Lex(r, Initial)
  {
    hide Lex, PrintPart, PartTokens, PlainPart;
    if |p| == 0 {
      assert "" + r == r;
    } else {
      var n := |p| - 1;
      var tail := PrintPart(p[n]) + ("\n" + r);
      assert PrintParts(p) + r == PrintParts(p[..n]) + tail;
      LexParts(p[..n], tail);
      LexPart(p[n], "\n" + r);
      LexBreak(r);
    }
  }

  lemma LexNothing()
    ensures Lex("", Initial) == []
  {
  }

  predicate NoValueFirst(t: seq<Token>) {
    |t| > 0 ==> !t[0].Value?
  }

  function AsRead(e: Entry): Entry {
    if e.Pair? then TrimEntry(e) else Remark("###" + e.text)
  }

  /** A pair without a value is a syntax error. */
  lemma ParseEntry(e: Entry, t: seq<Token>, done: seq<Part>)
    requires InSection(done) && NoValueFirst(t)
    ensures NoValueFirst(EntryTokens(e) + t)
    ensures Parse(EntryTokens(e) + t, done) ==
      if ReadableEntry(e) then Parse(t, AddEntry(done, AsRead(e))) else None
  {
    var k := EntryTokens(e) + t;
    hide Trim;
    if e.Pair? && ReadableEntry(e) {
      assert k[3..] == t;
    } else if e.Remark? {
      assert k[1..] == t;
    }
  }

  lemma {:induction false} ParseEntries(name: string, e: seq<Entry>, t: seq<Token>, done: seq<Part>)
    requires NoValueFirst(t)
    ensures NoValueFirst(EntriesTokens(e) + t)
    ensures Parse(EntriesTokens(e) + t, done + [Sect(name, [])]) ==
      if (forall x :: x in e ==> ReadableEntry(x)) then Parse(t, done + [Sect(name, Marked(TrimEntries(e)))]) else None
  {
    hide Parse, EntryTokens, Trim, ReadableEntry;
    if |e| == 0 {
      assert [] + t == t;
    } else {
      var n := |e| - 1;
      var before := done + [Sect(name, Marked(TrimEntries(e[..n])))];
      ParseEntry(e[n], t, before);
      assert EntriesTokens(e) + t == EntriesTokens(e[..n]) + (EntryTokens(e[n]) + t);
      ParseEntries(name, e[..n], EntryTokens(e[n]) + t, done);
      assert e == e[..n] + [e[n]];
      assert Marked(TrimEntries(e)) == Marked(TrimEntries(e[..n])) + [AsRead(e[n])];
      assert before[..|before| - 1] == done;
    }
  }

  lemma ParseHeader(name: string, t: seq<Token>, done: seq<Part>)
    ensures Parse([LeftBracket, SecName(name), RightBracket] + t, done) == Parse(t, done + [Sect(name, [])])
  {
    assert ([LeftBracket, SecName(name), RightBracket] + t)[3..] == t;
  }

  lemma ParseNote(text: string, t: seq<Token>, done: seq<Part>)
    ensures Parse([Comment(text)] + t, done) ==
      Parse(t, if InSection(done) then AddEntry(done, Remark(text)) else done + [Note(text)])
  {
    assert ([Comment(text)] + t)[1..] == t;
  }

  lemma ParsePart(p: Part, t: seq<Token>, done: seq<Part>)
    requires NoValueFirst(t)
    ensures NoValueFirst(PartTokens(p) + t)
    ensures Parse(PartTokens(p) + t, done) == if ReadablePart(p) then Parse(t, Absorb(done, TrimPart(p))) else None
  {
    hide Parse;
    match p
    case Sect(name, entries) =>
      var head := [LeftBracket, SecName(name), RightBracket];
      assert PartTokens(p) + t == head + (EntriesTokens(entries) + t);
      ParseHeader(name, EntriesTokens(entries) + t, done);
      ParseEntries(name, entries, t, done);
    case Note(text) => ParseNote("###" + text, t, done);
  }

  lemma {:induction false} ParseParts(p: seq<Part>, t: seq<Token>)
    requires NoValueFirst(t)
    ensures Parse(PartsTokens(p) + t, []) == if Readable(p) then Parse(t, ReadBack(TrimAll(p))) else None
  {
    hide Parse, PartTokens, Absorb, ReadablePart;
    if |p| == 0 {
      assert [] + t == t;
    } else {
      var n := |p| - 1;
      ParsePart(p[n], t, ReadBack(TrimAll(p[..n])));
      assert PartsTokens(p) + t == PartsTokens(p[..n]) + (PartTokens(p[n]) + t);
      ParseParts(p[..n], PartTokens(p[n]) + t);
      assert p == p[..n] + [p[n]];
      assert TrimAll(p)[..n] == TrimAll(p[..n]);
    }
  }

  lemma ParseNothing(done: seq<Part>)
    ensures Parse([], done) == Some(done)
  {
  }

  /** What printing and reading make of any store with legal keys and names and one-line texts. */
  lemma ReadsBack(p: seq<Part>)
    requires Plain(p)
    ensures Read(Print(p)) == if Readable(p) then Some(ReadBack(TrimAll(p))) else None
  {
    hide Lex, Parse, PrintParts, PartsTokens, ReadBack, Readable, Plain;
    LexParts(p, "\n");
    LexBreak("");
    LexNothing();
    assert "\n" + "" == "\n";
    ParseParts(p, []);
    ParseNothing(ReadBack(TrimAll(p)));
  }

  lemma LegalTrims(p: seq<Part>)
    requires Legal(p)
    ensures Readable(p) && TrimAll(p) == p
  {
    forall i, j | 0 <= i < |p| && p[i].Sect? && 0 <= j < |p[i].entries|
      ensures ReadableEntry(p[i].entries[j]) && TrimEntry(p[i].entries[j]) == p[i].entries[j]
    {
      assert p[i] in p && LegalPart(p[i]) && p[i].entries[j] in p[i].entries;
    }
    forall i | 0 <= i < |p| ensures ReadablePart(p[i]) && TrimPart(p[i]) == p[i] {
      assert p[i].Sect? ==> TrimEntries(p[i].entries) == p[i].entries;
    }
  }

  lemma TrimmedIsLegal(p: seq<Part>)
    requires Plain(p) && Readable(p) && TrimAll(p) == p
    ensures Legal(p)
  {
    hide Trim;
    forall i, j | 0 <= i < |p| && p[i].Sect? && 0 <= j < |p[i].entries| && p[i].entries[j].Pair?
      ensures LegalValue(p[i].entries[j].value)
    {
      var x, e := p[i], p[i].entries[j];
      assert TrimAll(p)[i] == TrimPart(x) && TrimEntries(x.entries)[j] == TrimEntry(e);
      assert x in p && PlainPart(x) && ReadablePart(x);
      assert e in x.entries && PlainEntry(e) && ReadableEntry(e);
      TrimFixes(e.value);
    }
  }

  lemma TrimFixes(v: string)
    requires Trim(v) == v && v != "" && LegalComment(v)
    ensures LegalValue(v)
  {
    assert |Trim(v)| == |v| - Span(v, Blank);
  }

  /** Reading back merges comments into sections, but shows every untrimmed value. */
  lemma {:induction false} ReadBackShows(p: seq<Part>)
    ensures InSection(ReadBack(TrimAll(p))) == InSection(ReadBack(p))
    ensures ReadBack(TrimAll(p)) == ReadBack(p) ==> TrimAll(p) == p
  {
    hide Absorb, InSection, TrimPart;
    if |p| == 0 {
      assert TrimAll(p) == p;
    } else {
      var n := |p| - 1;
      var q := TrimAll(p);
      ReadBackShows(p[..n]);
      assert q[..n] == TrimAll(p[..n]);
      var d, c := ReadBack(q[..n]), ReadBack(p[..n]);
      AbsorbInSection(d, c, p[n]);
      if Absorb(d, q[n]) == Absorb(c, p[n]) {
        AbsorbShows(d, c, p[n]);
        assert p == p[..n] + [p[n]];
        assert q == q[..n] + [q[n]];
      }
    }
  }

  lemma AbsorbInSection(d: seq<Part>, c: seq<Part>, x: Part)
    requires InSection(d) == InSection(c)
    ensures InSection(Absorb(d, TrimPart(x))) == InSection(Absorb(c, x))
  {
  }

  lemma AbsorbShows(d: seq<Part>, c: seq<Part>, x: Part)
    requires InSection(d) == InSection(c) && Absorb(d, TrimPart(x)) == Absorb(c, x)
    ensures d == c && TrimPart(x) == x
  {
    hide Trim;
    match x
    case Sect(name, entries) =>
      var trimmed := TrimEntries(entries);
      assert Absorb(d, TrimPart(x))[..|d|] == d && Absorb(c, x)[..|c|] == c;
      assert Marked(trimmed) == Marked(entries) by {
        assert Absorb(d, TrimPart(x))[|d|] == Absorb(c, x)[|c|];
      }
      forall j | 0 <= j < |entries| ensures trimmed[j] == entries[j] {
        assert Marked(trimmed)[j] == Marked(entries)[j];
      }
    case Note(text) =>
      if InSection(d) {
        AddEntryShows(d, c, Remark("###" + text));
      } else {
        assert Absorb(d, x)[..|d|] == d && Absorb(c, x)[..|c|] == c;
      }
  }

  lemma AddEntryShows(d: seq<Part>, c: seq<Part>, e: Entry)
    requires InSection(d) && InSection(c) && AddEntry(d, e) == AddEntry(c, e)
    ensures d == c
  {
    var n := |d| - 1;
    assert |AddEntry(d, e)| == |d| && |AddEntry(c, e)| == |c|;
    assert AddEntry(d, e)[n] == AddEntry(c, e)[n];
    var a, b := d[n].entries, c[n].entries;
    assert a + [e] == b + [e];
    assert (a + [e])[..|a|] == a && (b + [e])[..|b|] == b;
    assert AddEntry(d, e)[..n] == d[..n] && AddEntry(c, e)[..n] == c[..n];
    assert d == d[..n] + [d[n]] && c == c[..n] + [c[n]];
  }

  /** Printing and reading restore the store, with each comment lengthened and in its section, exactly when every
      value is nonempty and starts with something other than a blank. */
  lemma RoundTrip(p: seq<Part>)
    requires Plain(p)
    ensures Read(Print(p)) == Some(ReadBack(p)) <==> Legal(p)
  {
    hide Read, Print, ReadBack;
    ReadsBack(p);
    if Legal(p) {
      LegalTrims(p);
    } else if Readable(p) && ReadBack(TrimAll(p)) == ReadBack(p) {
      ReadBackShows(p);
      TrimmedIsLegal(p);
    }
  }

  // ---------- what reading back keeps ----------

  function Pairs(e: seq<Entry>): seq<Entry> {
    if |e| == 0 then [] else Pairs(e[..|e| - 1]) + if e[|e| - 1].Pair? then [e[|e| - 1]] else []
  }

  function SettingsOf(x: Part): seq<Part> {
    if x.Sect? then [Sect(x.name, Pairs(x.entries))] else []
  }

  /** Sections with their pairs, without any comment. */
  function Settings(p: seq<Part>): seq<Part> {
    if |p| == 0 then [] else Settings(p[..|p| - 1]) + SettingsOf(p[|p| - 1])
  }

  lemma {:induction false} MarkedKeepsPairs(e: seq<Entry>)
    ensures Pairs(Marked(e)) == Pairs(e)
  {
    if |e| > 0 {
      MarkedKeepsPairs(e[..|e| - 1]);
      assert Marked(e)[..|e| - 1] == Marked(e[..|e| - 1]);
    }
  }

  lemma SettingsSnoc(p: seq<Part>, x: Part)
    ensures Settings(p + [x]) == Settings(p) + SettingsOf(x)
  {
    assert (p + [x])[..|p|] == p;
  }

  /** Every section, key and value survives, in order, whatever happens to the comments. */
  lemma {:induction false} SettingsSurvive(p: seq<Part>)
    ensures Settings(ReadBack(p)) == Settings(p)
  {
    hide Settings, Pairs;
    if |p| == 0 {
    } else {
      var n := |p| - 1;
      var done, x := ReadBack(p[..n]), p[n];
      SettingsSurvive(p[..n]);
      assert p == p[..n] + [x];
      SettingsSnoc(p[..n], x);
      AbsorbKeeps(done, x);
    }
  }

  lemma AbsorbKeeps(done: seq<Part>, x: Part)
    ensures Settings(Absorb(done, x)) == Settings(done) + SettingsOf(x)
  {
    hide Settings;
    match x
    case Sect(name, entries) =>
      MarkedKeepsPairs(entries);
      SettingsSnoc(done, Sect(name, Marked(entries)));
    case Note(text) =>
      if InSection(done) {
        var n := |done| - 1;
        var last := done[n];
        assert done == done[..n] + [last];
        SettingsSnoc(done[..n], last);
        var more := last.entries + [Remark("###" + text)];
        assert more[..|more| - 1] == last.entries;
        assert Pairs(more) == Pairs(last.entries) + [] == Pairs(last.entries);
        SettingsSnoc(done[..n], Sect(last.name, more));
        assert Settings(done) + [] == Settings(done);
      } else {
        SettingsSnoc(done, Note("###" + text));
      }
  }
}
