/** Saving the store to text, and filling it from text. */
module PrefFile {
  import opened Options
  import opened PrefStore
  import opened Prefs
  import opened PrefText

  method PrintItem(x: SectionItem) returns (line: string)
    ensures line == PrintEntry(if x.Kv? then Pair(x.kv.key, x.kv.value) else Remark(x.text))
  {
    match x
    case Kv(kv) => line := kv.key + " = " + kv.value + "\n";
    case SecComment(text) => line := "###" + text + "\n";
  }

  method PrintSection(s: Section) returns (out: string)
    requires s.Valid()
    ensures out == PrintPart(Sect(s.name, s.contents))
  {
    hide Indexed, Distinct, PrintEntry;
    out := "[" + s.name + "]\n";
    ghost var head := out;
    for i := 0 to |s.items|
      invariant out == head + PrintEntries(s.contents[..i])
    {
      var line := PrintItem(s.items[i]);
      assert s.contents[..i + 1][..i] == s.contents[..i];
      out := out + line;
    }
    assert s.contents[..|s.items|] == s.contents;
    out := out + "\n";
  }

  method PrintPrefs(q: Prefs) returns (out: string)
    requires q.Valid()
    ensures out == Print(q.contents)
  {
    hide SectionsIndexed, Separate, Section.Valid, PrintPart;
    out := "";
    for i := 0 to |q.items|
      invariant out == PrintParts(q.contents[..i])
    {
      assert Stands(q.items[i], q.contents[i], q.sections, q.pairs);
      var part: string;
      match q.items[i] {
        case Sec(s) => part := PrintSection(s);
        case PrefComment(text) => part := PrintComment(text);
      }
      out := out + part + "\n";
      assert q.contents[..i + 1][..i] == q.contents[..i];
    }
    assert q.contents[..|q.items|] == q.contents;
    out := out + "\n";
  }

  method PrintComment(text: string) returns (out: string)
    ensures out == PrintPart(Note(text))
  {
    return "###" + text + "\n";
  }

  method BuildSection(name: string, entries: seq<Entry>) returns (s: Section)
    ensures fresh(s) && s.Valid() && s.name == name && s.contents == entries && fresh(s.pairs)
  {
    hide Section.Valid;
    s := new Section(name);
    for i := 0 to |entries|
      invariant fresh(s) && s.Valid() && s.name == name && s.contents == entries[..i] && fresh(s.pairs)
    {
      match entries[i] {
        case Pair(key, value) =>
          var kv := new KeyVal(key, value);
          s.AddItem(Kv(kv));
        case Remark(text) =>
          s.AddItem(SecComment(text));
      }
    }
  }

  /** Fills the store with what the text says, or leaves it empty if the text has an error. */
  method ReadPrefs(q: Prefs, text: string) returns (ok: bool)
    modifies q
    ensures q.Valid() && !q.changedFlag
    ensures ok == Read(text).Some?
    ensures q.contents == if ok then Read(text).value else []
  {
    hide Read, Prefs.Valid;
    q.Clear();
    var parsed := Read(text);
    if parsed.None? {
      return false;
    }
    var parts := parsed.value;
    for i := 0 to |parts|
      invariant q.Valid() && q.contents == parts[..i] && fresh(q.sections) && fresh(q.pairs)
    {
      match parts[i] {
        case Sect(name, entries) =>
          var s := BuildSection(name, entries);
          q.AddSectionItem(s);
        case Note(note) =>
          q.AddComment(note);
      }
    }
    Reset(q);
    return true;
  }

  method Reset(q: Prefs)
    requires q.Valid()
    modifies q`changedFlag
    ensures q.Valid() && !q.changedFlag
  {
    q.ResetChangeFlag();
  }

  /** Prints the store and reads the text back into a second store as a check. A text that cannot be read back
      fails the save, and takes the live store with it: what is left is empty. */
  method SavePrefs(q: Prefs) returns (ok: bool, text: string)
    requires q.Valid()
    modifies q
    ensures q.Valid() && !q.changedFlag
    ensures text == Print(old(q.contents))
    ensures q.contents == if ok then old(q.contents) else []
    ensures ok == Read(Print(old(q.contents))).Some?
    ensures Plain(old(q.contents)) ==> ok == Readable(old(q.contents))
  {
    hide Read, Print, Readable, Plain, Prefs.Valid, ReadBack, TrimAll;
    text := PrintPrefs(q);
    var check := new Prefs();
    ok := ReadPrefs(check, text);
    if Plain(q.contents) {
      ReadsBack(q.contents);
    }
    if !ok {
      q.Clear();
      return;
    }
    Reset(q);
  }

  /** A store with one empty value: legal key and name, but what is printed cannot be read. */
  lemma EmptyValueUnreadable()
    ensures var p := [Sect("S", [Pair("k", "")])]; Plain(p) && !Readable(p) && Read(Print(p)).None?
  {
    var e := Pair("k", "");
    var p := [Sect("S", [e])];
    assert p[0] in p && e in p[0].entries && !ReadableEntry(e);
    assert LegalKey("k") && LegalName("S");
    hide Read, Print, ReadBack, TrimAll, LegalKey, LegalName;
    ReadsBack(p);
  }
}
