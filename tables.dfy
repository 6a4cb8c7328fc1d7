/** A database table keyed by an AUTO_INCREMENT primary key: the stored rows and
    the key the next INSERT receives. */
module Tables {

  datatype Table<T> = Table(rows: map<int, T>, next: int)
  {
    /** Keys start at 1 and every stored key is below the next one handed out. */
    predicate Valid() {
      1 <= next && forall id :: id in rows ==> 1 <= id < next
    }
  }

  /** The tables the database holds: the counter invariant is part of the type. */
  type ValidTable<T> = t: Table<T> | t.Valid() witness Table(map[], 1)

  function Empty<T>(): (t: Table<T>)
    ensures t.Valid() && t.rows == map[]
  {
    Table(map[], 1)
  }

  /** INSERT: the new row gets the next key, which no stored row has; nothing else
      changes. The key is what mysqli reports as insert_id. */
  function Insert<T>(t: Table<T>, row: T): (r: Table<T>)
    requires t.Valid()
    ensures r.Valid()
    ensures t.next !in t.rows
    ensures r.rows.Keys == t.rows.Keys + {t.next} && r.rows[t.next] == row
    ensures |r.rows| == |t.rows| + 1
    ensures forall id :: id in t.rows ==> r.rows[id] == t.rows[id]
    ensures r.next > t.next
  {
    assert t.next !in t.rows;
    Table(t.rows[t.next := row], t.next + 1)
  }

  /** UPDATE ... WHERE key = id: only that row changes, and only when it exists. */
  function Replace<T>(t: Table<T>, id: int, row: T): (r: Table<T>)
    requires t.Valid()
    ensures r.Valid() && r.next == t.next && r.rows.Keys == t.rows.Keys
    ensures id in t.rows ==> r.rows[id] == row
    ensures forall k :: k in t.rows && k != id ==> r.rows[k] == t.rows[k]
    ensures id !in t.rows ==> r == t
  {
    if id in t.rows then Table(t.rows[id := row], t.next) else t
  }

  /** DELETE ... WHERE key = id: that row, if present, and no other disappears. */
  function Delete<T>(t: Table<T>, id: int): (r: Table<T>)
    requires t.Valid()
    ensures r.Valid() && r.next == t.next
    ensures r.rows.Keys == t.rows.Keys - {id}
    ensures forall k :: k in r.rows ==> r.rows[k] == t.rows[k]
    ensures id in t.rows ==> |r.rows| == |t.rows| - 1
    ensures id !in t.rows ==> r == t
  {
    if id in t.rows then Table(t.rows - {id}, t.next) else t
  }

  /** DELETE ... WHERE cond: exactly the rows meeting the condition disappear. */
  function DeleteWhere<T>(t: Table<T>, cond: T -> bool): (r: Table<T>)
    requires t.Valid()
    ensures r.Valid() && r.next == t.next
    ensures forall k :: k in r.rows <==> k in t.rows && !cond(t.rows[k])
    ensures forall k :: k in r.rows ==> r.rows[k] == t.rows[k]
  {
    Table(map k | k in t.rows && !cond(t.rows[k]) :: t.rows[k], t.next)
  }

  /** SELECT COUNT(*) ... WHERE cond. */
  function CountWhere<T>(t: Table<T>, cond: T -> bool): nat
  {
    |set id | id in t.rows && cond(t.rows[id])|
  }

  /** CountWhere is the size of any set holding exactly the matching keys. */
  lemma CountWhereIs<T>(t: Table<T>, cond: T -> bool, matching: set<int>)
    requires forall id :: id in matching <==> id in t.rows && cond(t.rows[id])
    ensures CountWhere(t, cond) == |matching|
  {
    var all := set id | id in t.rows && cond(t.rows[id]);
    forall id ensures id in matching <==> id in all {
      if id in t.rows && cond(t.rows[id]) {
        assert id in all;
      }
    }
    assert matching == all;
  }

  /** A full table scan in key order: the rows a SELECT without ORDER BY reads. */
  function Scan<T>(t: Table<T>): (s: seq<(int, T)>)
    requires t.Valid()
    ensures forall i :: 0 <= i < |s| ==> s[i].0 in t.rows && t.rows[s[i].0] == s[i].1
    ensures forall i, j :: 0 <= i < j < |s| ==> s[i].0 < s[j].0
  {
    ScanFrom(t, 1)
  }

  function ScanFrom<T>(t: Table<T>, lo: int): (s: seq<(int, T)>)
    requires t.Valid()
    ensures forall i :: 0 <= i < |s| ==> lo <= s[i].0 && s[i].0 in t.rows && t.rows[s[i].0] == s[i].1
    ensures forall i, j :: 0 <= i < j < |s| ==> s[i].0 < s[j].0
    decreases t.next - lo
  {
    if t.next <= lo then []
    else if lo in t.rows then [(lo, t.rows[lo])] + ScanFrom(t, lo + 1)
    else ScanFrom(t, lo + 1)
  }

  /** Every stored row shows up in the scan. */
  lemma {:induction false} ScanCovers<T>(t: Table<T>, id: int)
    requires t.Valid() && id in t.rows
    ensures exists i :: 0 <= i < |Scan(t)| && Scan(t)[i] == (id, t.rows[id])
  {
    ScanFromCovers(t, 1, id);
    assert Scan(t) == ScanFrom(t, 1);
  }

  lemma {:induction false} ScanFromCovers<T>(t: Table<T>, lo: int, id: int)
    requires t.Valid() && id in t.rows && lo <= id
    ensures exists i :: 0 <= i < |ScanFrom(t, lo)| && ScanFrom(t, lo)[i] == (id, t.rows[id])
    decreases t.next - lo
  {
    var s := ScanFrom(t, lo);
    if lo == id {
      assert s[0] == (id, t.rows[id]);
    } else {
      ScanFromCovers(t, lo + 1, id);
      var rest := ScanFrom(t, lo + 1);
      var i :| 0 <= i < |rest| && rest[i] == (id, t.rows[id]);
      if lo in t.rows {
        assert s == [(lo, t.rows[lo])] + rest;
        assert s[i + 1] == rest[i];
      } else {
        assert s == rest;
      }
    }
  }

  /** Number of scanned rows meeting a condition. */
  function CountRows<T>(s: seq<(int, T)>, cond: T -> bool): nat
  {
    if s == [] then 0 else (if cond(s[0].1) then 1 else 0) + CountRows(s[1..], cond)
  }

  /** Counting the rows of a scan gives what SELECT COUNT(*) gives. */
  lemma {:induction false} ScanCount<T>(t: Table<T>, cond: T -> bool)
    requires t.Valid()
    ensures CountRows(Scan(t), cond) == CountWhere(t, cond)
  {
    ScanFromCount(t, cond, 1);
    CountWhereIs(t, cond, MatchingFrom(t, cond, 1));
  }

  /** The keys from lo upwards whose rows meet a condition. */
  function MatchingFrom<T>(t: Table<T>, cond: T -> bool, lo: int): set<int>
  {
    set id | id in t.rows && cond(t.rows[id]) && lo <= id
  }

  lemma MatchingFromStep<T>(t: Table<T>, cond: T -> bool, lo: int)
    ensures |MatchingFrom(t, cond, lo)|
            == |MatchingFrom(t, cond, lo + 1)| + (if lo in t.rows && cond(t.rows[lo]) then 1 else 0)
  {
    var here, above := MatchingFrom(t, cond, lo), MatchingFrom(t, cond, lo + 1);
    if lo in t.rows && cond(t.rows[lo]) {
      assert lo !in above;
      assert here == above + {lo} by {
        forall id ensures id in here <==> id in above || id == lo { }
      }
    } else {
      assert here == above by {
        forall id ensures id in here <==> id in above { }
      }
    }
  }

  lemma CountRowsStep<T>(t: Table<T>, cond: T -> bool, lo: int)
    requires t.Valid() && lo < t.next
    ensures CountRows(ScanFrom(t, lo), cond)
            == CountRows(ScanFrom(t, lo + 1), cond) + (if lo in t.rows && cond(t.rows[lo]) then 1 else 0)
  {
    if lo in t.rows {
      var s := [(lo, t.rows[lo])] + ScanFrom(t, lo + 1);
      assert s[1..] == ScanFrom(t, lo + 1);
    }
  }

  lemma {:induction false} ScanFromCount<T>(t: Table<T>, cond: T -> bool, lo: int)
    requires t.Valid()
    ensures CountRows(ScanFrom(t, lo), cond) == |MatchingFrom(t, cond, lo)|
    decreases t.next - lo
  {
    if t.next <= lo {
      assert MatchingFrom(t, cond, lo) == {} by {
        forall id | id in MatchingFrom(t, cond, lo) ensures false { }
      }
    } else {
      ScanFromCount(t, cond, lo + 1);
      MatchingFromStep(t, cond, lo);
      CountRowsStep(t, cond, lo);
    }
  }
}
