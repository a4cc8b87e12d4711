/**
 * `Membrane.toFullStateString`: the state of a membrane tree written back
 * as model-file text, an `initial tree` block followed by one `species`
 * line per non-zero count. Each membrane is named by its generated unique
 * tag, so the text can be read again as the initial state of a new run.
 */
module FullState {
  import opened Text
  import opened Species
  import opened Membranes

  /** One non-zero count of the output: a species at a location of the membrane with that unique tag. */
  datatype Entry = Entry(name: string, loc: Location, tag: string, count: nat)

  /**
   * The species with a non-zero count, once each. The `LinkedHashMultiset`
   * hands them out in insertion order, which a `map` does not record, so
   * the order here is left open.
   */
  ghost function Present(c: Counts): (ks: seq<string>)
    ensures forall s :: s in ks <==> s in c && c[s] > 0
    ensures forall i, j :: 0 <= i < j < |ks| ==> ks[i] != ks[j]
    decreases |c|
  {
    if c == map[] then []
    else
      var k :| k in c;
      var rest := Present(c - {k});
      if c[k] > 0 then [k] + rest else rest
  }

  /** `writeSpeciesLines` for one location of one membrane. */
  ghost function LocationEntries(m: Membrane, loc: Location): seq<Entry>
    requires loc != Around
  {
    var c := LocalCounts(m, loc);
    var ks := Present(c);
    seq(|ks|, j requires 0 <= j < |ks| => Entry(ks[j], loc, m.uniqueTag, c[ks[j]]))
  }

  /** A membrane's own lines: on, then under, then contained. */
  ghost function OwnEntries(m: Membrane): seq<Entry> {
    LocationEntries(m, On) + LocationEntries(m, Under) + LocationEntries(m, Contained)
  }

  /** The species lines of a subtree: the membrane's own, then each child's subtree in turn. */
  ghost function Entries(nodes: seq<Membrane>, i: nat): seq<Entry>
    requires Links(nodes) && i < |nodes|
    decreases |nodes| - i, 1, 0
  {
    OwnEntries(nodes[i]) + EntriesList(nodes, nodes[i].children, i)
  }

  ghost function EntriesList(nodes: seq<Membrane>, xs: seq<nat>, lo: nat): seq<Entry>
    requires Links(nodes) && forall k :: 0 <= k < |xs| ==> lo < xs[k] < |nodes|
    decreases |nodes| - lo, 0, |xs|
  {
    if xs == [] then [] else EntriesList(nodes, xs[..|xs| - 1], lo) + Entries(nodes, xs[|xs| - 1])
  }

  /** What an entry says about a membrane: it holds exactly that many of the species there. */
  predicate Records(m: Membrane, e: Entry) {
    e.loc != Around && e.tag == m.uniqueTag && e.count > 0 && Count(LocalCounts(m, e.loc), e.name) == e.count
  }

  /** A membrane's own lines are exactly its non-zero counts. */
  lemma OwnEntriesRecord(m: Membrane, e: Entry)
    ensures e in OwnEntries(m) <==> Records(m, e)
  {
    if Records(m, e) {
      var ks := Present(LocalCounts(m, e.loc));
      var j :| 0 <= j < |ks| && ks[j] == e.name;
      assert LocationEntries(m, e.loc)[j] == e;
    }
  }

  /** Some membrane of the set s holds the count the entry states. */
  ghost predicate RecordedIn(nodes: seq<Membrane>, s: set<nat>, e: Entry) {
    exists m :: m in s && m < |nodes| && Records(nodes[m], e)
  }

  lemma RecordedInUnion(nodes: seq<Membrane>, a: set<nat>, b: set<nat>, e: Entry)
    ensures RecordedIn(nodes, a + b, e) <==> RecordedIn(nodes, a, e) || RecordedIn(nodes, b, e)
  {
    if RecordedIn(nodes, a + b, e) {
      var m :| m in a + b && m < |nodes| && Records(nodes[m], e);
    }
  }

  /** The output of a subtree lists exactly the non-zero counts of its membranes, each under its unique tag. */
  lemma {:induction false} EntriesRecordCounts(nodes: seq<Membrane>, i: nat, e: Entry)
    requires Links(nodes) && i < |nodes|
    ensures e in Entries(nodes, i) <==> RecordedIn(nodes, Reach(nodes, i), e)
    decreases |nodes| - i, 1, 0
  {
    OwnEntriesRecord(nodes[i], e);
    EntriesListRecordCounts(nodes, nodes[i].children, i, e);
    RecordedInUnion(nodes, {i}, ReachList(nodes, nodes[i].children, i), e);
    assert RecordedIn(nodes, {i}, e) <==> Records(nodes[i], e);
  }

  lemma {:induction false} EntriesListRecordCounts(nodes: seq<Membrane>, xs: seq<nat>, lo: nat, e: Entry)
    requires Links(nodes) && forall k :: 0 <= k < |xs| ==> lo < xs[k] < |nodes|
    ensures e in EntriesList(nodes, xs, lo) <==> RecordedIn(nodes, ReachList(nodes, xs, lo), e)
    decreases |nodes| - lo, 0, |xs|
  {
    if xs != [] {
      var n := |xs| - 1;
      EntriesListRecordCounts(nodes, xs[..n], lo, e);
      EntriesRecordCounts(nodes, xs[n], e);
      RecordedInUnion(nodes, ReachList(nodes, xs[..n], lo), Reach(nodes, xs[n]), e);
    }
  }

  /** A species line: "species <name> <location> <unique tag> = <count> units". */
  function SpeciesLine(e: Entry): string {
    "species " + SpeciesText(LocatedSpecies(e.name, e.loc, e.tag)) + " = " + NatToString(e.count) + " units\n"
  }

  function SpeciesSection(es: seq<Entry>): string {
    if es == [] then "" else SpeciesSection(es[..|es| - 1]) + SpeciesLine(es[|es| - 1])
  }

  /** The tags after the unique tag, each preceded by a space. */
  function TagsText(tags: seq<string>): string {
    if tags == [] then "" else TagsText(tags[..|tags| - 1]) + " " + tags[|tags| - 1]
  }

  /** `toFullStateStringTree`: "{ [ <unique tag> <tags> ] <type>", each child on a new line, then " }". */
  function TreeText(nodes: seq<Membrane>, i: nat, indent: nat): string
    requires Links(nodes) && i < |nodes|
    decreases |nodes| - i, 1, 0
  {
    var m := nodes[i];
    Repeat(' ', indent) + ("{ [ " + m.uniqueTag + TagsText(m.tags) + " ] " + m.mtype)
      + ChildrenText(nodes, m.children, i, indent + 2) + " }"
  }

  function ChildrenText(nodes: seq<Membrane>, xs: seq<nat>, lo: nat, indent: nat): string
    requires Links(nodes) && forall k :: 0 <= k < |xs| ==> lo < xs[k] < |nodes|
    decreases |nodes| - lo, 0, |xs|
  {
    if xs == [] then "" else ChildrenText(nodes, xs[..|xs| - 1], lo, indent) + "\n" + TreeText(nodes, xs[|xs| - 1], indent)
  }

  /** `toFullStateString` of membrane i. */
  ghost function FullStateString(nodes: seq<Membrane>, i: nat): string
    requires Links(nodes) && i < |nodes|
  {
    "initial tree \n" + TreeText(nodes, i, 2) + "\n\n" + SpeciesSection(Entries(nodes, i))
  }

  /** How often c occurs in s. */
  function Occ(s: string, c: char): nat {
    if s == [] then 0 else (if s[0] == c then 1 else 0) + Occ(s[1..], c)
  }

  lemma {:induction false} OccConcat(a: string, b: string, c: char)
    ensures Occ(a + b, c) == Occ(a, c) + Occ(b, c)
  {
    if a == [] {
      assert a + b == b;
    } else {
      assert (a + b)[1..] == a[1..] + b;
      OccConcat(a[1..], b, c);
    }
  }

  /** A line break adds no brace. */
  lemma OccJoin(a: string, b: string, c: char)
    requires c != '\n'
    ensures Occ(a + "\n" + b, c) == Occ(a, c) + Occ(b, c)
  {
    OccConcat(a, "\n", c);
    OccConcat(a + "\n", b, c);
  }

  lemma {:induction false} OccAbsent(s: string, c: char)
    requires c !in s
    ensures Occ(s, c) == 0
  {
    if s != [] {
      OccAbsent(s[1..], c);
    }
  }

  predicate BraceFree(s: string) { '{' !in s && '}' !in s }

  /** Names, generated tags and kept tags of every membrane hold no braces. */
  predicate PlainNames(nodes: seq<Membrane>) {
    forall j :: 0 <= j < |nodes| ==>
      BraceFree(nodes[j].mtype) && BraceFree(nodes[j].uniqueTag) &&
      forall k :: 0 <= k < |nodes[j].tags| ==> BraceFree(nodes[j].tags[k])
  }

  lemma {:induction false} TagsTextBraceFree(tags: seq<string>)
    requires forall k :: 0 <= k < |tags| ==> BraceFree(tags[k])
    ensures BraceFree(TagsText(tags))
  {
    if tags != [] {
      TagsTextBraceFree(tags[..|tags| - 1]);
    }
  }

  /** The header of a membrane's block holds exactly one opening brace and no closing one. */
  lemma Header(nodes: seq<Membrane>, i: nat, indent: nat)
    requires PlainNames(nodes) && i < |nodes|
    ensures var m := nodes[i];
      var h := Repeat(' ', indent) + ("{ [ " + m.uniqueTag + TagsText(m.tags) + " ] " + m.mtype);
      Occ(h, '{') == 1 && Occ(h, '}') == 0
  {
    var m := nodes[i];
    TagsTextBraceFree(m.tags);
    var body := m.uniqueTag + TagsText(m.tags) + " ] " + m.mtype;
    assert "{ [ " + m.uniqueTag + TagsText(m.tags) + " ] " + m.mtype == "{ [ " + body;
    assert BraceFree(body);
    assert BraceFree(Repeat(' ', indent));
    OccAbsent(body, '{');
    OccAbsent(body, '}');
    OccAbsent(Repeat(' ', indent), '{');
    OccAbsent(Repeat(' ', indent), '}');
    OccConcat("{ [ ", body, '{');
    OccConcat("{ [ ", body, '}');
    OccConcat(Repeat(' ', indent), "{ [ " + body, '{');
    OccConcat(Repeat(' ', indent), "{ [ " + body, '}');
  }

  /** The tree block of a subtree opens and closes one brace pair per membrane in it. */
  lemma {:induction false} TreeTextBraces(nodes: seq<Membrane>, i: nat, indent: nat)
    requires Links(nodes) && PlainNames(nodes) && i < |nodes|
    ensures Occ(TreeText(nodes, i, indent), '{') == Size(nodes, i)
    ensures Occ(TreeText(nodes, i, indent), '}') == Size(nodes, i)
    decreases |nodes| - i, 1, 0
  {
    var m := nodes[i];
    var h := Repeat(' ', indent) + ("{ [ " + m.uniqueTag + TagsText(m.tags) + " ] " + m.mtype);
    var ch := ChildrenText(nodes, m.children, i, indent + 2);
    Header(nodes, i, indent);
    ChildrenTextBraces(nodes, m.children, i, indent + 2);
    OccConcat(h, ch, '{');
    OccConcat(h, ch, '}');
    OccConcat(h + ch, " }", '{');
    OccConcat(h + ch, " }", '}');
  }

  lemma {:induction false} ChildrenTextBraces(nodes: seq<Membrane>, xs: seq<nat>, lo: nat, indent: nat)
    requires Links(nodes) && PlainNames(nodes) && forall k :: 0 <= k < |xs| ==> lo < xs[k] < |nodes|
    ensures Occ(ChildrenText(nodes, xs, lo, indent), '{') == SizeList(nodes, xs, lo)
    ensures Occ(ChildrenText(nodes, xs, lo, indent), '}') == SizeList(nodes, xs, lo)
    decreases |nodes| - lo, 0, |xs|
  {
    if xs != [] {
      var n := |xs| - 1;
      var front := ChildrenText(nodes, xs[..n], lo, indent);
      var last := TreeText(nodes, xs[n], indent);
      ChildrenTextBraces(nodes, xs[..n], lo, indent);
      TreeTextBraces(nodes, xs[n], indent);
      OccJoin(front, last, '{');
      OccJoin(front, last, '}');
    }
  }

  /** Dropping a leading tag of the unique-tag form leaves the kept tags as they were. */
  lemma {:induction false} KeptTagsDropsLeading(mtype: string, u: string, tags: seq<string>)
    requires IsUniqueTag(mtype, u)
    ensures KeptTags(mtype, [u] + tags) == KeptTags(mtype, tags)
    decreases |tags|
  {
    if tags == [] {
      assert [u] + tags == [u];
      assert [u][..0] == [];
    } else {
      var n := |tags| - 1;
      KeptTagsDropsLeading(mtype, u, tags[..n]);
      assert ([u] + tags)[..|[u] + tags| - 1] == [u] + tags[..n];
    }
  }

  /** Tags that are distinct and none of the unique-tag form are kept as they are. */
  lemma {:induction false} KeptTagsOfKept(mtype: string, tags: seq<string>)
    requires forall k :: 0 <= k < |tags| ==> !IsUniqueTag(mtype, tags[k])
    requires forall j, k :: 0 <= j < k < |tags| ==> tags[j] != tags[k]
    ensures KeptTags(mtype, tags) == tags
    decreases |tags|
  {
    if tags != [] {
      var n := |tags| - 1;
      KeptTagsOfKept(mtype, tags[..n]);
      assert tags == tags[..n] + [tags[n]];
    }
  }

  /**
   * Reading a membrane's tag list back from the output, the generated tag
   * written first is discarded and the kept tags come back unchanged, so a
   * re-read tree never carries a unique tag twice.
   */
  lemma ReparsedTags(mtype: string, supplied: seq<string>, k: nat)
    ensures KeptTags(mtype, [UniqueTagFor(mtype, k)] + KeptTags(mtype, supplied)) == KeptTags(mtype, supplied)
  {
    GeneratedTagIsUnique(mtype, k);
    KeptTagsDropsLeading(mtype, UniqueTagFor(mtype, k), KeptTags(mtype, supplied));
    KeptTagsSpec(mtype, supplied);
    KeptTagsOfKept(mtype, KeptTags(mtype, supplied));
  }
}
