/**
 * `addGrandTotalColumn`: rows are grouped by their person-name cell (position
 * 3, `''` when missing), the debit amounts (position 5) of each group are
 * summed, and the sum is written into a new trailing `Total` cell of the
 * group's last row; every other row gets an empty `Total` cell.
 *
 * `parseFloat` is a parameter `parse` giving an amount in cents or `None` for
 * `NaN`; `toFixed(2)` is a parameter `format`.
 */
module GrandTotal {
  import opened Base

  const DebitAmountIndex: nat := 5
  const GroupIndex: nat := 3
  const TotalHeader: string := "Total"

  /** `row[personNameIndex] || ''`. */
  function GroupKey(row: seq<string>): string {
    if |row| > GroupIndex then row[GroupIndex] else ""
  }

  /** `parseFloat(row[debitAmountIndex]) || 0`. */
  function Amount(row: seq<string>, parse: string -> Option<int>): int {
    if |row| > DebitAmountIndex then
      match parse(row[DebitAmountIndex])
      case Some(v) => v
      case None => 0
    else 0
  }

  /** The positions below `n` of the rows in group `key`, in increasing order. */
  function Indices(data: seq<seq<string>>, key: string, n: nat): seq<nat>
    requires n <= |data|
  {
    if n == 0 then []
    else Indices(data, key, n - 1) + (if GroupKey(data[n - 1]) == key then [n - 1] else [])
  }

  /** The amounts of the rows at `idx`, added up in order. */
  function SumAt(data: seq<seq<string>>, idx: seq<nat>, parse: string -> Option<int>): int
    requires forall t :: 0 <= t < |idx| ==> idx[t] < |data|
  {
    if idx == [] then 0 else SumAt(data, idx[..|idx| - 1], parse) + Amount(data[idx[|idx| - 1]], parse)
  }

  /** The amounts of the rows below `n` in group `key`, added up. */
  function KeySum(data: seq<seq<string>>, key: string, parse: string -> Option<int>, n: nat): int
    requires n <= |data|
  {
    if n == 0 then 0
    else KeySum(data, key, parse, n - 1) + (if GroupKey(data[n - 1]) == key then Amount(data[n - 1], parse) else 0)
  }

  /** The sum of the amounts of all rows in group `key`. */
  function GroupSum(data: seq<seq<string>>, key: string, parse: string -> Option<int>): int {
    KeySum(data, key, parse, |data|)
  }

  /** No later row belongs to the group of row `i`. */
  predicate IsLastOfGroup(data: seq<seq<string>>, i: nat)
    requires i < |data|
  {
    forall j :: i < j < |data| ==> GroupKey(data[j]) != GroupKey(data[i])
  }

  /** The `Total` cell of row `i`: the group sum on the group's last row, empty elsewhere. */
  function TotalCell(data: seq<seq<string>>, i: nat, parse: string -> Option<int>, format: int -> string): string
    requires i < |data|
  {
    if IsLastOfGroup(data, i) then format(GroupSum(data, GroupKey(data[i]), parse)) else ""
  }

  lemma {:induction false} IndicesBelow(data: seq<seq<string>>, key: string, n: nat)
    requires n <= |data|
    ensures forall t :: 0 <= t < |Indices(data, key, n)| ==> Indices(data, key, n)[t] < n
    decreases n
  {
    if n > 0 {
      IndicesBelow(data, key, n - 1);
    }
  }

  lemma {:induction false} IndicesIncreasing(data: seq<seq<string>>, key: string, n: nat)
    requires n <= |data|
    ensures forall s, t :: 0 <= s < t < |Indices(data, key, n)| ==> Indices(data, key, n)[s] < Indices(data, key, n)[t]
    decreases n
  {
    if n > 0 {
      IndicesIncreasing(data, key, n - 1);
      IndicesBelow(data, key, n - 1);
    }
  }

  /** A position is listed exactly when its row is in the group. */
  lemma {:induction false} IndicesMembers(data: seq<seq<string>>, key: string, n: nat)
    requires n <= |data|
    ensures forall j :: 0 <= j < n ==> (j in Indices(data, key, n) <==> GroupKey(data[j]) == key)
    decreases n
  {
    if n > 0 {
      IndicesMembers(data, key, n - 1);
      IndicesBelow(data, key, n - 1);
      assert n - 1 !in Indices(data, key, n - 1);
    }
  }

  /** Adding up the amounts at the listed positions gives the group sum. */
  lemma {:induction false} SumAtIndices(data: seq<seq<string>>, key: string, parse: string -> Option<int>, n: nat)
    requires n <= |data|
    ensures var ix := Indices(data, key, n);
      (forall t :: 0 <= t < |ix| ==> ix[t] < |data|) && SumAt(data, ix, parse) == KeySum(data, key, parse, n)
    decreases n
  {
    IndicesBelow(data, key, n);
    if n > 0 {
      SumAtIndices(data, key, parse, n - 1);
      var ix := Indices(data, key, n - 1);
      if GroupKey(data[n - 1]) == key {
        var ix' := ix + [n - 1];
        assert Indices(data, key, n) == ix';
        assert ix'[..|ix|] == ix;
        assert SumAt(data, ix', parse) == SumAt(data, ix, parse) + Amount(data[n - 1], parse);
      } else {
        assert Indices(data, key, n) == ix;
      }
    }
  }

  /** The last row of a non-empty group is its only row with no later row in the group. */
  lemma LastOfGroup(data: seq<seq<string>>, key: string)
    requires Indices(data, key, |data|) != []
    ensures var ix := Indices(data, key, |data|); var last := ix[|ix| - 1];
      last < |data| && GroupKey(data[last]) == key && IsLastOfGroup(data, last)
      && forall i :: 0 <= i < |data| && GroupKey(data[i]) == key && i != last ==> !IsLastOfGroup(data, i)
  {
    var ix := Indices(data, key, |data|);
    var last := ix[|ix| - 1];
    IndicesBelow(data, key, |data|);
    assert GroupKey(data[last]) == key by {
      IndicesMembers(data, key, |data|);
      assert last in ix;
    }
    assert forall t :: 0 <= t < |ix| ==> ix[t] <= last by {
      IndicesIncreasing(data, key, |data|);
    }
    forall j | last < j < |data| ensures GroupKey(data[j]) != key {
      IndicesMembers(data, key, |data|);
      assert j !in ix;
    }
    forall i | 0 <= i < |data| && GroupKey(data[i]) == key && i != last ensures !IsLastOfGroup(data, i) {
      IndicesMembers(data, key, |data|);
      assert i in ix;
      assert i < last;
    }
  }

  /**
   * `addGrandTotalColumn`. With at most 5 headers the rows are returned as
   * they are and only the headers gain `Total`; otherwise every row gains its
   * `Total` cell.
   */
  method AddGrandTotalColumn(data: seq<seq<string>>, headers: seq<string>,
                             parse: string -> Option<int>, format: int -> string)
    returns (rows: seq<seq<string>>, newHeaders: seq<string>)
    ensures newHeaders == headers + [TotalHeader]
    ensures |headers| <= DebitAmountIndex ==> rows == data
    ensures |headers| > DebitAmountIndex ==>
      |rows| == |data| && forall i :: 0 <= i < |data| ==> rows[i] == data[i] + [TotalCell(data, i, parse, format)]
  {
    if |headers| <= Max(GroupIndex, DebitAmountIndex) {
      return data, headers + [TotalHeader];
    }
    var groups, order := GroupRows(data);
    var processed := new seq<string>[|data|](i requires 0 <= i < |data| => data[i] + [""]);
    assert Filled(data, order, 0, processed[..], parse, format);
    for g := 0 to |order|
      invariant Filled(data, order, g, processed[..], parse, format)
    {
      var personName := order[g];
      GroupOfKey(data, personName);
      var total, lastRowIndex := SumGroup(data, personName, groups[personName], parse);
      if lastRowIndex >= 0 {
        ghost var before := processed[..];
        GroupStep(data, order, g, before, lastRowIndex, total, parse, format);
        var row := processed[lastRowIndex];
        processed[lastRowIndex] := row[|row| - 1 := format(total)];
        assert processed[..] == before[lastRowIndex := row[|row| - 1 := format(total)]];
      } else {
        // Every group holds at least the row that created it.
        assert false;
      }
    }
    rows := processed[..];
    newHeaders := headers + [TotalHeader];
    FilledAll(data, order, rows, parse, format);
  }

  /** The rows after the totals of the first `g` groups of `order` are written. */
  ghost predicate Filled(data: seq<seq<string>>, order: seq<string>, g: nat, rows: seq<seq<string>>,
                         parse: string -> Option<int>, format: int -> string)
    requires g <= |order|
  {
    |rows| == |data|
    && forall i :: 0 <= i < |data| ==>
      rows[i] == data[i] + [if GroupKey(data[i]) in order[..g] then TotalCell(data, i, parse, format) else ""]
  }

  lemma FilledAll(data: seq<seq<string>>, order: seq<string>, rows: seq<seq<string>>,
                  parse: string -> Option<int>, format: int -> string)
    requires order == KeysInOrder(data, |data|)
    requires Filled(data, order, |order|, rows, parse, format)
    ensures |rows| == |data| && forall i :: 0 <= i < |data| ==> rows[i] == data[i] + [TotalCell(data, i, parse, format)]
  {
    KeysInOrderCover(data, |data|);
    assert order[..|order|] == order;
  }

  /** Every key of the key order has its group in the `groups` map, holding the positions of its rows. */
  lemma GroupOfKey(data: seq<seq<string>>, key: string)
    requires key in KeysInOrder(data, |data|)
    ensures key in GroupsMap(data, |data|)
    ensures GroupsMap(data, |data|)[key] == Indices(data, key, |data|) != []
  {
    GroupsMapDomain(data, |data|);
    GroupsMapValues(data, |data|);
  }

  /** The keys of the first `n` rows, each once, in the order they first appear. */
  function KeysInOrder(data: seq<seq<string>>, n: nat): seq<string>
    requires n <= |data|
  {
    if n == 0 then []
    else
      var order := KeysInOrder(data, n - 1);
      if GroupKey(data[n - 1]) in order then order else order + [GroupKey(data[n - 1])]
  }

  /** The `groups` map after the first `n` rows: each row's position is filed under its key. */
  function GroupsMap(data: seq<seq<string>>, n: nat): map<string, seq<nat>>
    requires n <= |data|
  {
    if n == 0 then map[]
    else
      var groups := GroupsMap(data, n - 1);
      var key := GroupKey(data[n - 1]);
      groups[key := (if key in groups then groups[key] else []) + [n - 1]]
  }

  /**
   * The first `forEach` of `addGrandTotalColumn`: the `groups` map from each
   * key to the positions of its rows, and the keys in the map's insertion order.
   */
  method GroupRows(data: seq<seq<string>>) returns (groups: map<string, seq<nat>>, order: seq<string>)
    ensures groups == GroupsMap(data, |data|) && order == KeysInOrder(data, |data|)
  {
    groups, order := map[], [];
    for index := 0 to |data|
      invariant groups == GroupsMap(data, index) && order == KeysInOrder(data, index)
    {
      var personName := GroupKey(data[index]);
      GroupsMapDomain(data, index);
      if personName !in groups {
        groups := groups[personName := []];
        order := order + [personName];
      }
      groups := groups[personName := groups[personName] + [index]];
    }
  }

  lemma {:induction false} GroupsMapDomain(data: seq<seq<string>>, n: nat)
    requires n <= |data|
    ensures forall k :: k in GroupsMap(data, n) <==> k in KeysInOrder(data, n)
    decreases n
  {
    if n > 0 {
      GroupsMapDomain(data, n - 1);
    }
  }

  lemma {:induction false} KeysInOrderDistinct(data: seq<seq<string>>, n: nat)
    requires n <= |data|
    ensures forall s, t :: 0 <= s < t < |KeysInOrder(data, n)| ==> KeysInOrder(data, n)[s] != KeysInOrder(data, n)[t]
    decreases n
  {
    if n > 0 {
      KeysInOrderDistinct(data, n - 1);
    }
  }

  lemma {:induction false} KeysInOrderCover(data: seq<seq<string>>, n: nat)
    requires n <= |data|
    ensures forall j :: 0 <= j < n ==> GroupKey(data[j]) in KeysInOrder(data, n)
    decreases n
  {
    if n > 0 {
      KeysInOrderCover(data, n - 1);
    }
  }

  lemma {:induction false} GroupsMapValues(data: seq<seq<string>>, n: nat)
    requires n <= |data|
    ensures forall k :: k in GroupsMap(data, n) ==> GroupsMap(data, n)[k] == Indices(data, k, n) && GroupsMap(data, n)[k] != []
    decreases n
  {
    if n > 0 {
      GroupsMapValues(data, n - 1);
      var key := GroupKey(data[n - 1]);
      if key !in GroupsMap(data, n - 1) {
        assert Indices(data, key, n - 1) == [] by {
          GroupsMapDomain(data, n - 1);
          KeysInOrderCover(data, n - 1);
          IndicesEmpty(data, key, n - 1);
        }
      }
    }
  }

  /** The inner `forEach`: the sum of a group's amounts and its highest position (-1 for no rows). */
  method SumGroup(data: seq<seq<string>>, key: string, groupRows: seq<nat>, parse: string -> Option<int>)
    returns (total: int, lastRowIndex: int)
    requires groupRows == Indices(data, key, |data|)
    ensures total == GroupSum(data, key, parse)
    ensures lastRowIndex == if groupRows == [] then -1 else groupRows[|groupRows| - 1]
  {
    IndicesBelow(data, key, |data|);
    IndicesIncreasing(data, key, |data|);
    total, lastRowIndex := 0, -1;
    for t := 0 to |groupRows|
      invariant total == SumAt(data, groupRows[..t], parse)
      invariant lastRowIndex == if t == 0 then -1 else groupRows[t - 1]
    {
      assert groupRows[..t + 1][..t] == groupRows[..t];
      assert t > 0 ==> groupRows[t - 1] < groupRows[t];
      total := total + Amount(data[groupRows[t]], parse);
      lastRowIndex := Max(lastRowIndex, groupRows[t]);
    }
    assert groupRows[..|groupRows|] == groupRows;
    SumAtIndices(data, key, parse, |data|);
  }

  lemma {:induction false} IndicesEmpty(data: seq<seq<string>>, key: string, n: nat)
    requires n <= |data|
    requires forall j :: 0 <= j < n ==> GroupKey(data[j]) != key
    ensures Indices(data, key, n) == []
    decreases n
  {
    if n > 0 {
      IndicesEmpty(data, key, n - 1);
    }
  }

  /** Writing one group's total into its last row extends the loop invariant by that group. */
  lemma GroupStep(data: seq<seq<string>>, order: seq<string>, g: nat,
                  before: seq<seq<string>>, last: nat, total: int,
                  parse: string -> Option<int>, format: int -> string)
    requires order == KeysInOrder(data, |data|) && g < |order|
    requires var ix := Indices(data, order[g], |data|); ix != [] && last == ix[|ix| - 1]
    requires total == GroupSum(data, order[g], parse)
    requires Filled(data, order, g, before, parse, format)
    ensures last < |before| && |before[last]| > 0
    ensures Filled(data, order, g + 1, before[last := before[last][|before[last]| - 1 := format(total)]], parse, format)
  {
    KeysInOrderDistinct(data, |data|);
    LastOfGroup(data, order[g]);
    var after := before[last := before[last][|before[last]| - 1 := format(total)]];
    var key := order[g];
    LastOfGroup(data, key);
    assert order[..g + 1] == order[..g] + [key];
    assert key !in order[..g] by {
      forall s | 0 <= s < g ensures order[..g][s] != key {
        assert order[..g][s] == order[s];
      }
    }
    forall i | 0 <= i < |data|
      ensures after[i] == data[i] + [if GroupKey(data[i]) in order[..g + 1] then TotalCell(data, i, parse, format) else ""]
    {
      if GroupKey(data[i]) == key && i == last {
        assert after[i] == data[i] + [format(total)];
      }
    }
  }

  /** The rows holding a group total: the last row of each group. */
  function LastRows(data: seq<seq<string>>): set<nat> {
    set i | 0 <= i < |data| && IsLastOfGroup(data, i)
  }

  /** The distinct keys of the rows. */
  function Keys(data: seq<seq<string>>): set<string> {
    set i | 0 <= i < |data| :: GroupKey(data[i])
  }

  /**
   * One total per group: as `toFixed` never returns an empty string, the
   * number of non-empty `Total` cells is the number of distinct keys.
   */
  lemma OneTotalPerGroup(data: seq<seq<string>>, parse: string -> Option<int>, format: int -> string)
    requires forall c :: format(c) != []
    ensures (set i | 0 <= i < |data| && TotalCell(data, i, parse, format) != "") == LastRows(data)
    ensures |LastRows(data)| == |Keys(data)|
  {
    LastRowsDistinctKeys(data);
    KeyImageCard(data, LastRows(data));
    LastRowsCoverKeys(data);
  }

  lemma LastRowsDistinctKeys(data: seq<seq<string>>)
    ensures forall i :: i in LastRows(data) ==> i < |data|
    ensures forall i, j :: i in LastRows(data) && j in LastRows(data) && i < j ==> GroupKey(data[i]) != GroupKey(data[j])
  {
  }

  /** Every key has a last row. */
  lemma LastRowsCoverKeys(data: seq<seq<string>>)
    ensures (set i | i in LastRows(data) :: GroupKey(data[i])) == Keys(data)
  {
    var image := set i | i in LastRows(data) :: GroupKey(data[i]);
    forall j | 0 <= j < |data| ensures GroupKey(data[j]) in image {
      var i := LastRowOf(data, j);
      assert GroupKey(data[i]) in image;
    }
  }

  /** The last row of the group of row `j`. */
  lemma LastRowOf(data: seq<seq<string>>, j: nat) returns (i: nat)
    requires j < |data|
    ensures i in LastRows(data) && GroupKey(data[i]) == GroupKey(data[j])
  {
    var key := GroupKey(data[j]);
    var ix := Indices(data, key, |data|);
    assert ix != [] by {
      IndicesMembers(data, key, |data|);
      assert j in ix;
    }
    LastOfGroup(data, key);
    i := ix[|ix| - 1];
  }

  /** Keys on rows with pairwise different keys are as many as the rows. */
  lemma {:induction false} KeyImageCard(data: seq<seq<string>>, rows: set<nat>)
    requires forall i :: i in rows ==> i < |data|
    requires forall i, j :: i in rows && j in rows && i < j ==> GroupKey(data[i]) != GroupKey(data[j])
    ensures |set i | i in rows :: GroupKey(data[i])| == |rows|
    decreases |rows|
  {
    if rows != {} {
      var x :| x in rows;
      var rest := rows - {x};
      KeyImageCard(data, rest);
      var image := set i | i in rest :: GroupKey(data[i]);
      assert GroupKey(data[x]) !in image;
      assert (set i | i in rows :: GroupKey(data[i])) == image + {GroupKey(data[x])};
    }
  }
}
