/**
 * The leaderboard view: the ranking of the entries, the list of names for
 * the name picker, and the add-name field.
 */
module Leaderboard {
  import opened Text
  import opened Lists

  datatype Entry = Entry(name: string, minutes: int, updatedAt: int)

  /** The `sorted` comparator as a key: most minutes first, then the latest update first. */
  function RankKey(e: Entry): Key {
    Key(-e.minutes, -e.updatedAt)
  }

  /** The `sorted` comparator as written: `b.minutes - a.minutes`, else `b.updatedAt - a.updatedAt`. */
  function CompareEntries(a: Entry, b: Entry): (c: int)
    ensures c == 0 <==> a.minutes == b.minutes && a.updatedAt == b.updatedAt
  {
    if b.minutes != a.minutes then b.minutes - a.minutes else b.updatedAt - a.updatedAt
  }

  /** Ordering by the key is ordering by the comparator. */
  lemma RankKeyAgrees(a: Entry, b: Entry)
    ensures KeyLe(RankKey(a), RankKey(b)) <==> CompareEntries(a, b) <= 0
  {
  }

  /** `sorted`: a permutation of the entries, by minutes and then by last update, both descending. */
  function Ranking(entries: seq<Entry>): (r: seq<Entry>)
    ensures multiset(r) == multiset(entries)
    ensures forall i, j :: 0 <= i < j < |r| ==>
              && r[i].minutes >= r[j].minutes
              && (r[i].minutes == r[j].minutes ==> r[i].updatedAt >= r[j].updatedAt)
  {
    SortBy(entries, RankKey)
  }

  /** Entries tied on both minutes and last update keep their order in `entries`. */
  lemma RankingStable(entries: seq<Entry>, minutes: int, updatedAt: int)
    ensures var k := Key(-minutes, -updatedAt);
      WithKey(Ranking(entries), RankKey, k) == WithKey(entries, RankKey, k)
  {
    SortByStable(entries, RankKey, Key(-minutes, -updatedAt));
  }

  /** One line of the ranking: the number shown and the entry. */
  datatype Row = Row(rank: nat, entry: Entry)

  /** The ranking as displayed: the entry at position `i` is shown with number `i + 1`. */
  function Rows(entries: seq<Entry>): (rows: seq<Row>)
    ensures |rows| == |entries|
  {
    var sorted := Ranking(entries);
    seq(|sorted|, i requires 0 <= i < |sorted| => Row(i + 1, sorted[i]))
  }

  /**
   * The numbers run 1, 2, ..., n down the list, and an entry with more
   * minutes never gets a larger number than one with fewer.
   */
  lemma RowsRanks(entries: seq<Entry>)
    ensures var rows := Rows(entries);
      && (forall i :: 0 <= i < |rows| ==> rows[i].rank == i + 1 && rows[i].entry == Ranking(entries)[i])
      && (forall i, j :: 0 <= i < |rows| && 0 <= j < |rows| && rows[i].entry.minutes > rows[j].entry.minutes ==>
            rows[i].rank < rows[j].rank)
  {
  }

  /**
   * `allNames`: every entry's name, each once. The names are collected in a
   * set as the entries are visited; the final collation order is not modelled,
   * so the names come in order of first appearance.
   */
  method AllNames(entries: seq<Entry>) returns (names: seq<string>)
    ensures forall n :: n in names <==> exists e :: e in entries && e.name == n
    ensures forall i, j :: 0 <= i < j < |names| ==> names[i] != names[j]
    ensures |names| <= |entries|
  {
    var seen: set<string> := {};
    names := [];
    var i := 0;
    while i < |entries|
      invariant 0 <= i <= |entries|
      invariant forall n :: n in seen <==> n in names
      invariant forall n :: n in names <==> exists k :: 0 <= k < i && entries[k].name == n
      invariant forall a, b :: 0 <= a < b < |names| ==> names[a] != names[b]
      invariant |names| <= i
    {
      var name := entries[i].name;
      if name !in seen {
        seen := seen + {name};
        names := names + [name];
      }
      i := i + 1;
    }
    forall n | n in names ensures exists e :: e in entries && e.name == n {
      var k :| 0 <= k < |entries| && entries[k].name == n;
      assert entries[k] in entries;
    }
  }

  /** What the add-name button hands to its parent, in call order. */
  datatype Callback = AddName(name: string) | SelectName(name: string)

  /** The add-name field's state. */
  class AddNameForm {
    var newName: string

    constructor ()
      ensures newName == ""
    {
      newName := "";
    }

    /** The field's `onChange`. */
    method Edit(value: string)
      modifies this
      ensures newName == value
    {
      newName := value;
    }

    /**
     * The add button: a blank field calls nothing and keeps its text;
     * otherwise the trimmed name goes to `onAddName`, then to
     * `onSelectName`, and the field is cleared.
     */
    method Submit() returns (calls: seq<Callback>)
      modifies this
      ensures Trim(old(newName)) == [] ==> calls == [] && newName == old(newName)
      ensures Trim(old(newName)) != [] ==>
                && calls == [AddName(Trim(old(newName))), SelectName(Trim(old(newName)))]
                && newName == ""
    {
      var n := Trim(newName);
      if n == [] {
        return [];
      }
      calls := [AddName(n), SelectName(n)];
      newName := "";
    }
  }
}
