/** The preference store: ordered items with an index beside them. */
module PrefStore {
  import opened Options

  // ---------- the store as a value ----------

  datatype Entry = Pair(key: string, value: string) | Remark(text: string)

  datatype Part = Sect(name: string, entries: seq<Entry>) | Note(text: string)

  /** Position of the first pair with this key; the length if there is none. */
  function FindKey(e: seq<Entry>, key: string): (i: nat)
    ensures i <= |e|
    ensures i < |e| ==> e[i].Pair? && e[i].key == key
    ensures forall j :: 0 <= j < i ==> e[j].Remark? || e[j].key != key
  {
    if |e| == 0 then 0
    else if e[0].Pair? && e[0].key == key then 0
    else 1 + FindKey(e[1..], key)
  }

  function FindSect(p: seq<Part>, name: string): (i: nat)
    ensures i <= |p|
    ensures i < |p| ==> p[i].Sect? && p[i].name == name
    ensures forall j :: 0 <= j < i ==> p[j].Note? || p[j].name != name
  {
    if |p| == 0 then 0
    else if p[0].Sect? && p[0].name == name then 0
    else 1 + FindSect(p[1..], name)
  }

  function Lookup(e: seq<Entry>, key: string): Option<string> {
    var i := FindKey(e, key);
    if i < |e| then Some(e[i].value) else None
  }

  function LookupIn(p: seq<Part>, name: string, key: string): Option<string> {
    var i := FindSect(p, name);
    if i < |p| then Lookup(p[i].entries, key) else None
  }

  /** The first pair with the key takes the value; without one, a pair is appended. */
  function Put(e: seq<Entry>, key: string, value: string): seq<Entry> {
    var i := FindKey(e, key);
    if i < |e| then e[i := Pair(key, value)] else e + [Pair(key, value)]
  }

  function WithSection(p: seq<Part>, name: string): seq<Part> {
    if FindSect(p, name) < |p| then p else p + [Sect(name, [])]
  }

  function PutIn(p: seq<Part>, name: string, key: string, value: string): seq<Part> {
    var q := WithSection(p, name);
    var i := FindSect(q, name);
    if i < |q| then q[i := Sect(name, Put(q[i].entries, key, value))] else q
  }

  lemma FindKeyIs(e: seq<Entry>, key: string, i: nat)
    requires i <= |e| && (i < |e| ==> e[i].Pair? && e[i].key == key)
    requires forall j :: 0 <= j < i ==> e[j].Remark? || e[j].key != key
    ensures FindKey(e, key) == i
  {
  }

  lemma FindSectIs(p: seq<Part>, name: string, i: nat)
    requires i <= |p| && (i < |p| ==> p[i].Sect? && p[i].name == name)
    requires forall j :: 0 <= j < i ==> p[j].Note? || p[j].name != name
    ensures FindSect(p, name) == i
  {
  }

  lemma PutThenLookup(e: seq<Entry>, key: string, value: string, other: string)
    ensures Lookup(Put(e, key, value), other) == if other == key then Some(value) else Lookup(e, other)
  {
    var f := Put(e, key, value);
    var i, k := FindKey(e, key), FindKey(e, other);
    if other == key {
      FindKeyIs(f, key, i);
    } else {
      FindKeyIs(f, other, if k < |e| then k else |f|);
    }
  }

  lemma WithSectionFound(p: seq<Part>, name: string)
    ensures FindSect(WithSection(p, name), name) < |WithSection(p, name)|
    ensures forall sec, key :: LookupIn(WithSection(p, name), sec, key) == LookupIn(p, sec, key)
  {
    if FindSect(p, name) == |p| {
      var q := WithSection(p, name);
      FindSectIs(q, name, |p|);
      forall sec, key ensures LookupIn(q, sec, key) == LookupIn(p, sec, key) {
        var k := FindSect(p, sec);
        if sec != name {
          FindSectIs(q, sec, if k < |p| then k else |q|);
        }
      }
    }
  }

  /** Setting a value makes it what a lookup finds, and changes no other key and no other section. */
  lemma SetThenGet(p: seq<Part>, name: string, key: string, value: string, sec: string, other: string)
    ensures LookupIn(PutIn(p, name, key, value), sec, other) ==
      if sec == name && other == key then Some(value) else LookupIn(p, sec, other)
  {
    var q := WithSection(p, name);
    WithSectionFound(p, name);
    var i, k := FindSect(q, name), FindSect(q, sec);
    var r := PutIn(p, name, key, value);
    FindSectIs(r, sec, k);
    PutThenLookup(q[i].entries, key, value, other);
  }

  /** Everything but the one pair stays where it was. */
  lemma PutKeepsOthers(p: seq<Part>, name: string, key: string, value: string, j: nat)
    requires j < |p|
    ensures j < |PutIn(p, name, key, value)|
    ensures j != FindSect(p, name) ==> PutIn(p, name, key, value)[j] == p[j]
  {
    WithSectionFound(p, name);
    if FindSect(p, name) == |p| {
      FindSectIs(WithSection(p, name), name, |p|);
    }
  }

  // ---------- numbered section names ----------

  function Digit(d: nat): char
    requires d < 10
  {
    '0' + d as char
  }

  function Digits(n: nat): string {
    if n < 10 then [Digit(n)] else Digits(n / 10) + [Digit(n % 10)]
  }

  /** Decimal, filled with zeros to four places. */
  function Padded(n: nat): string {
    var d := Digits(n);
    Zeros(if |d| < 4 then 4 - |d| else 0) + d
  }

  function Zeros(n: nat): string {
    seq(n, i => '0')
  }

  function ValueOf(s: string): int {
    if |s| == 0 then 0 else 10 * ValueOf(s[..|s| - 1]) + (s[|s| - 1] as int - '0' as int)
  }

  lemma {:induction false} ZerosAhead(k: nat, s: string)
    ensures ValueOf(Zeros(k) + s) == ValueOf(s)
    decreases k + |s|
  {
    var t := Zeros(k) + s;
    if |s| > 0 {
      ZerosAhead(k, s[..|s| - 1]);
      assert t[..|t| - 1] == Zeros(k) + s[..|s| - 1];
    } else if k > 0 {
      ZerosAhead(k - 1, "");
      assert t[..k - 1] == Zeros(k - 1) + "";
    }
  }

  lemma {:induction false} DigitsValue(n: nat)
    ensures ValueOf(Digits(n)) == n
  {
    if n >= 10 {
      DigitsValue(n / 10);
      assert Digits(n)[..|Digits(n)| - 1] == Digits(n / 10);
    }
  }

  lemma {:induction false} DigitsShape(n: nat)
    ensures |Digits(n)| > 0 && (forall i :: 0 <= i < |Digits(n)| ==> '0' <= Digits(n)[i] <= '9')
    ensures n > 0 ==> Digits(n)[0] != '0'
  {
    if n >= 10 {
      DigitsShape(n / 10);
    }
  }

  lemma PaddedValue(n: nat)
    ensures ValueOf(Padded(n)) == n && |Padded(n)| > 0
  {
    DigitsValue(n);
    var d := Digits(n);
    ZerosAhead(if |d| < 4 then 4 - |d| else 0, d);
  }

  /** With at least four digits, and more only where they are needed. */
  lemma PaddedShape(n: nat)
    ensures |Padded(n)| >= 4 && (forall i :: 0 <= i < |Padded(n)| ==> '0' <= Padded(n)[i] <= '9')
    ensures |Padded(n)| > 4 ==> Padded(n)[0] != '0'
  {
    DigitsShape(n);
  }

  /** The names tried for a new section: the template itself, then the template with a running number. */
  function Candidate(template: string, k: nat): string {
    if k == 0 then template else template + Padded(k - 1)
  }

  lemma CandidatesDiffer(template: string, j: nat, k: nat)
    requires j != k
    ensures Candidate(template, j) != Candidate(template, k)
  {
    var n := |template|;
    if j > 0 {
      PaddedValue(j - 1);
      assert Candidate(template, j)[n..] == Padded(j - 1);
    }
    if k > 0 {
      PaddedValue(k - 1);
      assert Candidate(template, k)[n..] == Padded(k - 1);
    }
  }

  /** So many names tried and found taken means at least as many names. */
  lemma {:induction false} TakenNames(template: string, n: nat, names: set<string>)
    requires forall k :: 0 <= k < n ==> Candidate(template, k) in names
    ensures n <= |names|
  {
    if n > 0 {
      var c := Candidate(template, n - 1);
      forall k | 0 <= k < n - 1 ensures Candidate(template, k) in names - {c} {
        CandidatesDiffer(template, k, n - 1);
      }
      TakenNames(template, n - 1, names - {c});
    }
  }

  // ---------- the store as objects ----------

  class KeyVal {
    const key: string
    var value: string

    constructor (key: string, value: string)
      ensures this.key == key && this.value == value
    {
      this.key, this.value := key, value;
    }

    method SetValue(v: string)
      modifies this
      ensures value == v
    {
      value := v;
    }
  }

  datatype SectionItem = Kv(kv: KeyVal) | SecComment(text: string)

  /** Linear scan for the key, on the objects. */
  ghost predicate FirstKeyVal(items: seq<SectionItem>, key: string, i: int) {
    && 0 <= i < |items| && items[i].Kv? && items[i].kv.key == key
    && forall j :: 0 <= j < i ==> items[j].SecComment? || items[j].kv.key != key
  }

  ghost predicate NoKeyVal(items: seq<SectionItem>, key: string) {
    forall j :: 0 <= j < |items| ==> items[j].SecComment? || items[j].kv.key != key
  }

  ghost predicate Distinct(items: seq<SectionItem>) {
    forall i, j :: 0 <= i < j < |items| && items[i].Kv? && items[j].Kv? ==> items[i].kv != items[j].kv
  }

  /** The index holds, for each key, the first pair a linear scan finds, and no other key. */
  ghost predicate Indexed(items: seq<SectionItem>, index: map<string, KeyVal>) {
    && (forall key :: key in index ==> exists i :: FirstKeyVal(items, key, i) && items[i].kv == index[key])
    && (forall key :: key !in index ==> NoKeyVal(items, key))
  }

  /** A new pair enters the index only if its key is not there yet. */
  lemma IndexedSnoc(items: seq<SectionItem>, index: map<string, KeyVal>, item: SectionItem)
    requires Indexed(items, index)
    ensures Indexed(items + [item],
      if item.Kv? && item.kv.key !in index then index[item.kv.key := item.kv] else index)
  {
    var all := items + [item];
    var m := if item.Kv? && item.kv.key !in index then index[item.kv.key := item.kv] else index;
    forall key | key in m ensures exists i :: FirstKeyVal(all, key, i) && all[i].kv == m[key] {
      if key in index {
        var i :| FirstKeyVal(items, key, i) && items[i].kv == index[key];
        assert FirstKeyVal(all, key, i);
      } else {
        assert NoKeyVal(items, key);
        assert FirstKeyVal(all, key, |items|);
      }
    }
  }

  class Section {
    const name: string
    var items: seq<SectionItem>
    var index: map<string, KeyVal>

    ghost var contents: seq<Entry>
    ghost var pairs: set<KeyVal>

    constructor (name: string)
      ensures Valid() && this.name == name && contents == [] && pairs == {}
    {
      this.name := name;
      items, index := [], map[];
      contents, pairs := [], {};
    }

    ghost predicate Valid()
      reads this, pairs
    {
      && Distinct(items) && Indexed(items, index)
      && |contents| == |items|
      && (forall i :: 0 <= i < |items| && items[i].Kv? ==> items[i].kv in pairs)
      && (forall i :: 0 <= i < |items| ==> contents[i] == match items[i]
            case Kv(kv) => Pair(kv.key, kv.value)
            case SecComment(text) => Remark(text))
    }

    /** Appends and registers: a key already in the index keeps its first pair. */
    method AddItem(item: SectionItem)
      requires Valid() && (item.Kv? ==> item.kv !in pairs)
      modifies this
      ensures Valid() && items == old(items) + [item]
      ensures contents == old(contents) + [if item.Kv? then Pair(item.kv.key, item.kv.value) else Remark(item.text)]
      ensures pairs == old(pairs) + if item.Kv? then {item.kv} else {}
    {
      IndexedSnoc(items, index, item);
      hide Indexed;
      items := items + [item];
      contents := contents + [if item.Kv? then Pair(item.kv.key, item.kv.value) else Remark(item.text)];
      pairs := pairs + if item.Kv? then {item.kv} else {};
      if item.Kv? {
        RegisterKeyVal(item.kv);
      }
    }

    method RegisterKeyVal(kv: KeyVal)
      modifies `index
      ensures index == if kv.key in old(index) then old(index) else old(index)[kv.key := kv]
    {
      if kv.key !in index {
        index := index[kv.key := kv];
      }
    }

    lemma IndexIsScan(key: string)
      requires Valid()
      ensures key in index <==> FindKey(contents, key) < |contents|
      ensures key in index ==>
        var i := FindKey(contents, key);
        items[i].Kv? && index[key] == items[i].kv && index[key] in pairs && contents[i] == Pair(key, index[key].value)
    {
      if key in index {
        var i :| FirstKeyVal(items, key, i) && items[i].kv == index[key];
        FindKeyIs(contents, key, i);
      } else {
        FindKeyIs(contents, key, |items|);
      }
    }

    method GetValue(key: string) returns (r: Option<string>)
      requires Valid()
      ensures r == Lookup(contents, key)
    {
      IndexIsScan(key);
      if key !in index {
        return None;
      }
      return Some(index[key].value);
    }

    method KeyExists(key: string) returns (b: bool)
      requires Valid()
      ensures b == Lookup(contents, key).Some? == (key in index)
    {
      IndexIsScan(key);
      return key in index;
    }

    method AddKey(key: string, value: string)
      requires Valid()
      modifies this, pairs
      ensures Valid() && contents == Put(old(contents), key, value) && fresh(pairs - old(pairs))
      decreases if key in index then 1 else 0
    {
      hide FindKey;
      var exists_ := KeyExists(key);
      if exists_ {
        SetValue(key, value);
        return;
      }
      IndexIsScan(key);
      hide Valid;
      var kv := new KeyVal(key, value);
      AddItem(Kv(kv));
    }

    method SetValue(key: string, value: string)
      requires Valid()
      modifies this, pairs
      ensures Valid() && contents == Put(old(contents), key, value) && fresh(pairs - old(pairs))
      decreases if key in index then 0 else 1
    {
      hide FindKey, Indexed;
      var exists_ := KeyExists(key);
      if !exists_ {
        AddKey(key, value);
        return;
      }
      IndexIsScan(key);
      contents := contents[FindKey(contents, key) := Pair(key, value)];
      index[key].SetValue(value);
    }
  }
}
