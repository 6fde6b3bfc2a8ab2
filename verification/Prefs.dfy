/** The store of sections, over the same ordered-items-and-index scheme as a section's keys. */
module Prefs {
  import opened Options
  import opened PrefStore

  datatype PrefItem = Sec(s: Section) | PrefComment(text: string)

  ghost predicate FirstSection(items: seq<PrefItem>, name: string, i: int) {
    && 0 <= i < |items| && items[i].Sec? && items[i].s.name == name
    && forall j :: 0 <= j < i ==> items[j].PrefComment? || items[j].s.name != name
  }

  ghost predicate NoSection(items: seq<PrefItem>, name: string) {
    forall j :: 0 <= j < |items| ==> items[j].PrefComment? || items[j].s.name != name
  }

  ghost predicate SectionsIndexed(items: seq<PrefItem>, index: map<string, Section>) {
    && (forall name :: name in index ==> exists i :: FirstSection(items, name, i) && items[i].s == index[name])
    && (forall name :: name !in index ==> NoSection(items, name))
  }

  lemma SectionsIndexedSnoc(items: seq<PrefItem>, index: map<string, Section>, item: PrefItem)
    requires SectionsIndexed(items, index)
    ensures SectionsIndexed(items + [item],
      if item.Sec? && item.s.name !in index then index[item.s.name := item.s] else index)
  {
    var all := items + [item];
    var m := if item.Sec? && item.s.name !in index then index[item.s.name := item.s] else index;
    forall name | name in m ensures exists i :: FirstSection(all, name, i) && all[i].s == m[name] {
      if name in index {
        var i :| FirstSection(items, name, i) && items[i].s == index[name];
        assert FirstSection(all, name, i);
      } else {
        assert NoSection(items, name);
        assert FirstSection(all, name, |items|);
      }
    }
  }

  /** The item stands for the part, within the given objects. */
  ghost predicate Stands(x: PrefItem, p: Part, sections: set<Section>, pairs: set<KeyVal>)
    reads sections, pairs
  {
    match x
    case Sec(s) => s in sections && s.pairs <= pairs && s.Valid() && p == Sect(s.name, s.contents)
    case PrefComment(text) => p == Note(text)
  }

  ghost predicate AllStand(items: seq<PrefItem>, parts: seq<Part>, sections: set<Section>, pairs: set<KeyVal>)
    reads sections, pairs
  {
    && |parts| == |items|
    && forall i :: 0 <= i < |items| ==> Stands(items[i], parts[i], sections, pairs)
  }

  /** Sections are separate objects and share no pair. */
  ghost predicate Separate(items: seq<PrefItem>, sections: set<Section>)
    reads sections
  {
    forall i, j :: 0 <= i < j < |items| && items[i].Sec? && items[j].Sec? ==>
      items[i].s in sections && items[j].s in sections ==>
      items[i].s != items[j].s && items[i].s.pairs !! items[j].s.pairs
  }

  ghost function AsPart(item: PrefItem): Part
    reads if item.Sec? then {item.s} else {}
  {
    match item
    case Sec(s) => Sect(s.name, s.contents)
    case PrefComment(text) => Note(text)
  }

  lemma SnocKeeps(items: seq<PrefItem>, parts: seq<Part>, sections: set<Section>, pairs: set<KeyVal>, item: PrefItem)
    requires AllStand(items, parts, sections, pairs) && Separate(items, sections)
    requires item.Sec? ==> item.s !in sections && item.s.Valid() && item.s.pairs !! pairs
    ensures var m := sections + if item.Sec? then {item.s} else {};
      var q := pairs + if item.Sec? then item.s.pairs else {};
      AllStand(items + [item], parts + [AsPart(item)], m, q) && Separate(items + [item], m)
  {
    hide Section.Valid;
    forall i | 0 <= i < |items| ensures Stands(items[i], parts[i], sections, pairs) {
    }
  }

  class Prefs {
    var items: seq<PrefItem>
    var index: map<string, Section>
    var changedFlag: bool

    ghost var contents: seq<Part>
    ghost var sections: set<Section>
    ghost var pairs: set<KeyVal>

    constructor ()
      ensures Valid() && contents == [] && !changedFlag && sections == {} && pairs == {}
    {
      items, index, changedFlag := [], map[], false;
      contents, sections, pairs := [], {}, {};
    }

    ghost predicate Valid()
      reads this, sections, pairs
    {
      && SectionsIndexed(items, index)
      && AllStand(items, contents, sections, pairs)
      && Separate(items, sections)
    }

    lemma IndexIsScan(name: string)
      requires Valid()
      ensures name in index <==> FindSect(contents, name) < |contents|
      ensures name in index ==>
        var i := FindSect(contents, name);
        && items[i].Sec? && index[name] == items[i].s
        && index[name] in sections && index[name].pairs <= pairs && index[name].Valid()
        && contents[i] == Sect(name, index[name].contents)
    {
      if name in index {
        var i :| FirstSection(items, name, i) && items[i].s == index[name];
        FindSectIs(contents, name, i);
      } else {
        FindSectIs(contents, name, |items|);
      }
    }

    method SectionExists(name: string) returns (b: bool)
      requires Valid()
      ensures b == (name in index) == (FindSect(contents, name) < |contents|)
    {
      IndexIsScan(name);
      return name in index;
    }

    method GetValue(sec: string, key: string) returns (r: Option<string>)
      requires Valid()
      ensures r == LookupIn(contents, sec, key)
    {
      IndexIsScan(sec);
      if sec !in index {
        return None;
      }
      r := index[sec].GetValue(key);
    }

    method KeyExists(sec: string, key: string) returns (b: bool)
      requires Valid()
      ensures b == LookupIn(contents, sec, key).Some?
    {
      IndexIsScan(sec);
      if sec !in index {
        return false;
      }
      b := index[sec].KeyExists(key);
    }

    method SetChangeFlag()
      modifies `changedFlag
      ensures changedFlag
    {
      changedFlag := true;
    }

    method ResetChangeFlag()
      modifies `changedFlag
      ensures !changedFlag
    {
      changedFlag := false;
    }

    method RegisterSection(s: Section)
      modifies `index
      ensures index == if s.name in old(index) then old(index) else old(index)[s.name := s]
    {
      if s.name !in index {
        index := index[s.name := s];
      }
    }

    /** A section is appended and enters the index if its name is new there. */
    method AddSectionItem(s: Section)
      requires Valid() && s !in sections && s.Valid() && s.pairs !! pairs
      modifies this
      ensures Valid() && changedFlag
      ensures contents == old(contents) + [Sect(s.name, s.contents)]
      ensures sections == old(sections) + {s} && pairs == old(pairs) + s.pairs
    {
      SectionsIndexedSnoc(items, index, Sec(s));
      hide SectionsIndexed, AllStand, Separate, Section.Valid;
      SetChangeFlag();
      PushSection(s);
      RegisterSection(s);
    }

    method PushSection(s: Section)
      requires AllStand(items, contents, sections, pairs) && Separate(items, sections)
      requires s !in sections && s.Valid() && s.pairs !! pairs
      modifies `items, `contents, `sections, `pairs
      ensures items == old(items) + [Sec(s)]
      ensures AllStand(items, contents, sections, pairs) && Separate(items, sections)
      ensures contents == old(contents) + [Sect(s.name, s.contents)]
      ensures sections == old(sections) + {s} && pairs == old(pairs) + s.pairs
    {
      SnocKeeps(items, contents, sections, pairs, Sec(s));
      hide AllStand, Separate, Section.Valid;
      items := items + [Sec(s)];
      contents := contents + [Sect(s.name, s.contents)];
      sections, pairs := sections + {s}, pairs + s.pairs;
    }

    /** A comment is only appended. */
    method AddComment(text: string)
      requires Valid()
      modifies this
      ensures Valid() && changedFlag
      ensures contents == old(contents) + [Note(text)]
      ensures sections == old(sections) && pairs == old(pairs)
    {
      SectionsIndexedSnoc(items, index, PrefComment(text));
      SnocKeeps(items, contents, sections, pairs, PrefComment(text));
      hide SectionsIndexed, Section.Valid, AllStand, Separate;
      SetChangeFlag();
      items := items + [PrefComment(text)];
      contents := contents + [Note(text)];
      assert sections + {} == sections && pairs + {} == pairs;
    }

    method AddSection(name: string)
      requires Valid()
      modifies this
      ensures Valid() && contents == WithSection(old(contents), name)
      ensures fresh(sections - old(sections)) && pairs == old(pairs)
      ensures changedFlag == (old(changedFlag) || contents != old(contents))
    {
      hide FindSect, Valid;
      var exists_ := SectionExists(name);
      if exists_ {
        return;
      }
      var s := new Section(name);
      AddSectionItem(s);
    }

    /** The first section of that name, made if need be, gets the value. */
    method SetValue(sec: string, key: string, value: string)
      requires Valid()
      modifies this, sections, pairs
      ensures Valid() && changedFlag && contents == PutIn(old(contents), sec, key, value)
      ensures fresh(sections - old(sections)) && fresh(pairs - old(pairs))
    {
      hide FindSect, SectionsIndexed, Section.Valid, AllStand, Separate, Put;
      WithSectionFound(contents, sec);
      var exists_ := SectionExists(sec);
      if !exists_ {
        AddSection(sec);
      }
      SetChangeFlag();
      PutValue(sec, key, value);
    }

    method PutValue(sec: string, key: string, value: string)
      requires Valid() && FindSect(contents, sec) < |contents|
      modifies this`contents, this`pairs, sections, pairs
      ensures Valid() && fresh(pairs - old(pairs))
      ensures var i := FindSect(old(contents), sec); var p := old(contents);
        contents == p[i := Sect(sec, Put(p[i].entries, key, value))]
    {
      hide FindSect, SectionsIndexed, Section.Valid, Put;
      IndexIsScan(sec);
      var s := index[sec];
      s.SetValue(key, value);
      contents := contents[FindSect(contents, sec) := Sect(sec, s.contents)];
      pairs := pairs + s.pairs;
    }

    /** The template if it is free, else the template with the first free number. */
    method AddNumberedSection(template: string) returns (ok: bool, name: string, ghost tries: nat)
      requires Valid()
      modifies this
      ensures Valid() && fresh(sections - old(sections)) && pairs == old(pairs)
      ensures tries <= |old(index)| && (|old(index)| < 0x1_0000_0000_0000_0000 ==> ok)
      ensures forall k :: 0 <= k < tries ==> Candidate(template, k) in old(index)
      ensures if ok
        then name == Candidate(template, tries) && name !in old(index) && contents == old(contents) + [Sect(name, [])]
        else contents == old(contents)
    {
      hide FindSect, Valid, Padded;
      var exists_ := SectionExists(template);
      if !exists_ {
        name := template;
        AddSection(name);
        return true, name, 0;
      }
      var cntr := 0;
      tries := 1;
      while true
        invariant Valid() && tries == cntr + 1 && tries <= |index|
        invariant unchanged(this)
        invariant forall k :: 0 <= k < tries ==> Candidate(template, k) in index
        invariant 0 <= cntr < 0x1_0000_0000_0000_0000
        decreases |index| - tries
      {
        var tmpName := template + Padded(cntr);
        exists_ := SectionExists(tmpName);
        if !exists_ {
          name := tmpName;
          AddSection(name);
          return true, name, tries;
        }
        TakenNames(template, tries + 1, index.Keys);
        cntr := (cntr + 1) % 0x1_0000_0000_0000_0000;
        if cntr == 0 {
          break;
        }
        tries := tries + 1;
      }
      return false, "", tries;
    }

    method Clear()
      modifies this
      ensures Valid() && contents == [] && !changedFlag && sections == {} && pairs == {}
    {
      changedFlag := false;
      items, index := [], map[];
      contents, sections, pairs := [], {}, {};
    }
  }
}
