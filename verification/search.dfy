/** The order filter of the page (filterOrders): keep the orders whose
    orderId, lower-cased, contains the lower-cased search term. */
module Search {
  import opened Orders

  /** toLowerCase on one character (ASCII letters only). */
  function LowerChar(c: char): char {
    if 'A' <= c <= 'Z' then (c as int - 'A' as int + 'a' as int) as char else c
  }

  /** toLowerCase: every ASCII capital becomes its small letter, every
      other character stays. */
  function ToLower(s: string): (r: string)
    ensures |r| == |s|
    ensures forall i :: 0 <= i < |r| ==> !('A' <= r[i] <= 'Z')
    ensures forall i :: 0 <= i < |s| && !('A' <= s[i] <= 'Z') ==> r[i] == s[i]
    ensures forall i :: 0 <= i < |s| && 'A' <= s[i] <= 'Z' ==> r[i] as int == s[i] as int + 32
  {
    seq(|s|, i requires 0 <= i < |s| => LowerChar(s[i]))
  }

  /** Lower-casing twice is lower-casing once. */
  lemma ToLowerIdempotent(s: string)
    ensures ToLower(ToLower(s)) == ToLower(s)
  {
  }

  /** needle sits in hay starting at index k. */
  predicate OccursAt(hay: string, needle: string, k: nat) {
    k + |needle| <= |hay| && hay[k..k + |needle|] == needle
  }

  /** String.prototype.includes: needle is a prefix of some suffix of hay. */
  predicate Includes(hay: string, needle: string)
    decreases |hay|
  {
    |needle| <= |hay| && (hay[..|needle|] == needle || Includes(hay[1..], needle))
  }

  /** includes(needle) holds exactly when needle occurs at some index. */
  lemma {:induction false} IncludesIff(hay: string, needle: string)
    ensures Includes(hay, needle) <==> exists k: nat :: OccursAt(hay, needle, k)
    decreases |hay|
  {
    if Includes(hay, needle) {
      if hay[..|needle|] == needle {
        assert OccursAt(hay, needle, 0);
      } else {
        IncludesIff(hay[1..], needle);
        var k: nat :| OccursAt(hay[1..], needle, k);
        assert hay[1..][k..k + |needle|] == hay[k + 1..k + 1 + |needle|];
        assert OccursAt(hay, needle, k + 1);
      }
    }
    if exists k: nat :: OccursAt(hay, needle, k) {
      var k: nat :| OccursAt(hay, needle, k);
      if k > 0 {
        assert hay[1..][k - 1..k - 1 + |needle|] == hay[k..k + |needle|];
        assert OccursAt(hay[1..], needle, k - 1);
        IncludesIff(hay[1..], needle);
      }
    }
  }

  /** The page's filter condition for one order. */
  predicate Matches(o: Order, term: string) {
    Includes(ToLower(o.orderId), ToLower(term))
  }

  /** filterOrders: the matching orders, in their original order. */
  function Filter(orders: seq<Order>, term: string): (r: seq<Order>)
    ensures forall o :: o in r <==> o in orders && Matches(o, term)
    ensures |r| <= |orders|
  {
    if orders == [] then []
    else
      var rest := Filter(orders[1..], term);
      assert forall o :: o in orders <==> o == orders[0] || o in orders[1..];
      if Matches(orders[0], term) then [orders[0]] + rest else rest
  }

  /** Filtering distributes over concatenation. */
  lemma {:induction false} FilterAppend(a: seq<Order>, b: seq<Order>, term: string)
    ensures Filter(a + b, term) == Filter(a, term) + Filter(b, term)
  {
    if a == [] {
      assert a + b == b;
    } else {
      assert (a + b)[1..] == a[1..] + b;
      FilterAppend(a[1..], b, term);
    }
  }

  /** Strictly increasing indices below n. */
  predicate IncreasingIndices(idx: seq<nat>, n: nat) {
    && (forall i :: 0 <= i < |idx| ==> idx[i] < n)
    && (forall i, j :: 0 <= i < j < |idx| ==> idx[i] < idx[j])
  }

  /** Every index moved up by one. */
  lemma ShiftIndices(tail: seq<nat>, n: nat) returns (shifted: seq<nat>)
    requires IncreasingIndices(tail, n)
    ensures |shifted| == |tail|
    ensures forall i :: 0 <= i < |tail| ==> shifted[i] == tail[i] + 1
    ensures IncreasingIndices(shifted, n + 1)
    ensures 0 !in shifted
    ensures forall j :: 1 <= j <= n ==> (j in shifted <==> j - 1 in tail)
  {
    shifted := seq(|tail|, i requires 0 <= i < |tail| => tail[i] + 1);
    forall j | 1 <= j <= n
      ensures j in shifted <==> j - 1 in tail
    {
      if j in shifted {
        var i :| 0 <= i < |shifted| && shifted[i] == j;
        assert tail[i] == j - 1;
      }
      if j - 1 in tail {
        var i :| 0 <= i < |tail| && tail[i] == j - 1;
        assert shifted[i] == j;
      }
    }
  }

  /** The filter result is the subsequence of orders at the matching
      positions: idx lists those positions, ascending. */
  lemma {:induction false} FilterIsSubsequence(orders: seq<Order>, term: string) returns (idx: seq<nat>)
    ensures |idx| == |Filter(orders, term)|
    ensures IncreasingIndices(idx, |orders|)
    ensures forall i :: 0 <= i < |idx| ==> Filter(orders, term)[i] == orders[idx[i]]
    ensures forall j :: 0 <= j < |orders| ==> (j in idx <==> Matches(orders[j], term))
  {
    if orders == [] {
      idx := [];
    } else {
      var rest := Filter(orders[1..], term);
      var tail := FilterIsSubsequence(orders[1..], term);
      var shifted := ShiftIndices(tail, |orders| - 1);
      var marks := seq(|orders|, j requires 0 <= j < |orders| => Matches(orders[j], term));
      assert forall j :: 1 <= j < |orders| ==> (j in shifted <==> marks[j]) by {
        forall j | 1 <= j < |orders|
          ensures j in shifted <==> marks[j]
        {
          assert orders[1..][j - 1] == orders[j];
        }
      }
      assert Filter(orders, term) == if marks[0] then [orders[0]] + rest else rest;
      idx := ConsIndex(orders, marks, Filter(orders, term), rest, shifted);
      assert forall j :: 0 <= j < |orders| ==> marks[j] == Matches(orders[j], term);
    }
  }

  /** One step of FilterIsSubsequence: the kept positions of orders, given
      those of orders[1..] shifted up by one and whether orders[0] is kept. */
  lemma ConsIndex(orders: seq<Order>, marks: seq<bool>, kept: seq<Order>, rest: seq<Order>, shifted: seq<nat>)
    returns (idx: seq<nat>)
    requires |marks| == |orders| > 0
    requires kept == if marks[0] then [orders[0]] + rest else rest
    requires |shifted| == |rest|
    requires IncreasingIndices(shifted, |orders|) && 0 !in shifted
    requires forall i :: 0 <= i < |shifted| ==> rest[i] == orders[shifted[i]]
    requires forall j :: 1 <= j < |orders| ==> (j in shifted <==> marks[j])
    ensures |idx| == |kept|
    ensures IncreasingIndices(idx, |orders|)
    ensures forall i :: 0 <= i < |idx| ==> kept[i] == orders[idx[i]]
    ensures forall j :: 0 <= j < |orders| ==> (j in idx <==> marks[j])
  {
    if marks[0] {
      idx := [0] + shifted;
      forall i | 0 <= i < |idx|
        ensures kept[i] == orders[idx[i]]
      {
        if i > 0 {
          assert kept[i] == rest[i - 1] && idx[i] == shifted[i - 1];
        }
      }
      forall i, j | 0 <= i < j < |idx|
        ensures idx[i] < idx[j]
      {
        assert idx[j] == shifted[j - 1];
        if i > 0 {
          assert idx[i] == shifted[i - 1];
        }
      }
    } else {
      idx := shifted;
    }
  }

  /** An empty search term keeps every order. */
  lemma {:induction false} FilterEmptyTerm(orders: seq<Order>)
    ensures Filter(orders, "") == orders
  {
    if orders != [] {
      assert ToLower("") == "";
      assert Matches(orders[0], "");
      FilterEmptyTerm(orders[1..]);
      assert orders == [orders[0]] + orders[1..];
    }
  }

  /** Filtering twice with the same term is filtering once. */
  lemma {:induction false} FilterIdempotent(orders: seq<Order>, term: string)
    ensures Filter(Filter(orders, term), term) == Filter(orders, term)
  {
    if orders != [] {
      FilterIdempotent(orders[1..], term);
      var rest := Filter(orders[1..], term);
      if Matches(orders[0], term) {
        assert ([orders[0]] + rest)[1..] == rest;
      }
    }
  }

  /** The filter ignores letter case in the search term. */
  lemma {:induction false} FilterCaseInsensitive(orders: seq<Order>, term1: string, term2: string)
    requires ToLower(term1) == ToLower(term2)
    ensures Filter(orders, term1) == Filter(orders, term2)
  {
    if orders != [] {
      FilterCaseInsensitive(orders[1..], term1, term2);
    }
  }

  /** Matching ignores letter case in the orderId too: an order matches
      exactly when its copy with a lower-cased orderId does. */
  lemma MatchIgnoresIdCase(o: Order, term: string)
    ensures Matches(o, term) == Matches(o.(orderId := ToLower(o.orderId)), term)
  {
    ToLowerIdempotent(o.orderId);
  }

  /** An order with orderId "ORD-100" is kept for the search term "ord-1". */
  lemma CaseInsensitiveExample(o: Order)
    requires o.orderId == "ORD-100"
    ensures Matches(o, "ord-1")
  {
    assert ToLower("ORD-100") == "ord-100";
    assert ToLower("ord-1") == "ord-1";
    assert "ord-100"[..5] == "ord-1";
  }
}
