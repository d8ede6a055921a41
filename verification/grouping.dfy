/**
 * The statistics handlers all run one SQL shape:
 *
 *     SELECT key, COUNT(*) AS usage FROM ... GROUP BY key ORDER BY usage DESC
 *
 * This module gives that shape a meaning over the sequence of group keys the
 * query reads (one key per telemetry row that survives the join/filter):
 * `IsUsageReport` says what any correct result is, and `MostUsed` computes one.
 * SQL leaves the order among equal counts open, so nothing here fixes it.
 */
module Grouping {

  /** One line of a grouped count: the group's key and its number of rows. */
  datatype Usage<K> = Usage(key: K, usage: nat)

  /** Number of rows whose key is `k`. */
  function Count<K(==)>(ks: seq<K>, k: K): (n: nat)
    ensures n <= |ks|
    ensures n > 0 <==> k in ks
  {
    if ks == [] then 0
    else
      assert ks == ks[..|ks| - 1] + [ks[|ks| - 1]];
      Count(ks[..|ks| - 1], k) + (if ks[|ks| - 1] == k then 1 else 0)
  }

  /** Total of the usage column. */
  function Sum<K>(r: seq<Usage<K>>): nat
  {
    if r == [] then 0 else r[0].usage + Sum(r[1..])
  }

  /** Some line of `r` is the group `k`. */
  predicate Listed<K(==)>(r: seq<Usage<K>>, k: K)
  {
    exists e :: e in r && e.key == k
  }

  /** No group appears twice. */
  predicate DistinctKeys<K(==)>(r: seq<Usage<K>>)
  {
    forall i, j :: 0 <= i < j < |r| ==> r[i].key != r[j].key
  }

  /** ORDER BY usage DESC. */
  predicate NonIncreasing<K>(r: seq<Usage<K>>)
  {
    forall i, j :: 0 <= i < j < |r| ==> r[i].usage >= r[j].usage
  }

  /**
   * `r` is GROUP BY / COUNT of the keys `ks`, in any order: one line per
   * distinct key that occurs (and no other), each carrying the number of rows
   * with that key, so that the counts add up to the number of rows.
   */
  predicate IsTally<K(==)>(ks: seq<K>, r: seq<Usage<K>>)
  {
    && DistinctKeys(r)
    && (forall e :: e in r ==> e.key in ks && e.usage == Count(ks, e.key))
    && (forall k :: k in ks ==> Listed(r, k))
    && Sum(r) == |ks|
  }

  /** A correct grouped count, sorted by descending usage. */
  predicate IsUsageReport<K(==)>(ks: seq<K>, r: seq<Usage<K>>)
  {
    IsTally(ks, r) && NonIncreasing(r)
  }

  /** Adds one row with key `k` to a running tally. */
  function Bump<K(==)>(t: seq<Usage<K>>, k: K): seq<Usage<K>>
  {
    if t == [] then [Usage(k, 1)]
    else if t[0].key == k then [Usage(k, t[0].usage + 1)] + t[1..]
    else [t[0]] + Bump(t[1..], k)
  }

  /** Groups the rows in order of first appearance. */
  function Tally<K(==)>(ks: seq<K>): seq<Usage<K>>
  {
    if ks == [] then [] else Bump(Tally(ks[..|ks| - 1]), ks[|ks| - 1])
  }

  /** Places `u` before the first line whose usage does not exceed its own. */
  function Insert<K>(u: Usage<K>, s: seq<Usage<K>>): seq<Usage<K>>
  {
    if s == [] || u.usage >= s[0].usage then [u] + s
    else [s[0]] + Insert(u, s[1..])
  }

  /** Insertion sort by descending usage. */
  function SortByUsage<K>(s: seq<Usage<K>>): seq<Usage<K>>
  {
    if s == [] then [] else Insert(s[0], SortByUsage(s[1..]))
  }

  /** The grouped, sorted count that the statistics handlers return. */
  function MostUsed<K(==)>(ks: seq<K>): (r: seq<Usage<K>>)
    ensures IsUsageReport(ks, r)
    ensures forall e :: e in r ==> e.usage >= 1
  {
    TallyIsTally(ks);
    SortKeepsTally(ks, Tally(ks));
    SortByUsage(Tally(ks))
  }


  /** Splitting off the first line, for distinctness. */
  lemma ConsDistinct<K>(x: Usage<K>, s: seq<Usage<K>>)
    ensures DistinctKeys([x] + s) <==> DistinctKeys(s) && !Listed(s, x.key)
  {
    var c := [x] + s;
    if DistinctKeys(c) {
      forall i, j | 0 <= i < j < |s| ensures s[i].key != s[j].key {
        assert s[i] == c[i + 1] && s[j] == c[j + 1];
      }
      forall e | e in s ensures e.key != x.key {
        var j :| 0 <= j < |s| && s[j] == e;
        assert c[0] == x && c[j + 1] == e;
      }
    }
    if DistinctKeys(s) && !Listed(s, x.key) {
      forall i, j | 0 <= i < j < |c| ensures c[i].key != c[j].key {
        assert c[j] == s[j - 1];
        if i > 0 {
          assert c[i] == s[i - 1];
        } else {
          assert c[j] in s;
        }
      }
    }
  }

  /** Splitting off the first line, for the order. */
  lemma ConsNonIncreasing<K>(x: Usage<K>, s: seq<Usage<K>>)
    ensures NonIncreasing([x] + s) <==> NonIncreasing(s) && forall e :: e in s ==> x.usage >= e.usage
  {
    var c := [x] + s;
    if NonIncreasing(c) {
      forall i, j | 0 <= i < j < |s| ensures s[i].usage >= s[j].usage {
        assert s[i] == c[i + 1] && s[j] == c[j + 1];
      }
      forall e | e in s ensures x.usage >= e.usage {
        var j :| 0 <= j < |s| && s[j] == e;
        assert c[0] == x && c[j + 1] == e;
      }
    }
    if NonIncreasing(s) && forall e :: e in s ==> x.usage >= e.usage {
      forall i, j | 0 <= i < j < |c| ensures c[i].usage >= c[j].usage {
        assert c[j] == s[j - 1];
        if i > 0 {
          assert c[i] == s[i - 1];
        } else {
          assert c[j] in s;
        }
      }
    }
  }

  /** The total of a line followed by more lines. */
  lemma ConsSum<K>(x: Usage<K>, s: seq<Usage<K>>)
    ensures Sum([x] + s) == x.usage + Sum(s)
  {
    assert ([x] + s)[1..] == s;
  }

  /** Bumping adds exactly one to the total. */
  lemma {:induction false} BumpSum<K>(t: seq<Usage<K>>, k: K)
    ensures Sum(Bump(t, k)) == Sum(t) + 1
  {
    if t == [] {
    } else if t[0].key == k {
      ConsSum(Usage(k, t[0].usage + 1), t[1..]);
    } else {
      BumpSum(t[1..], k);
      ConsSum(t[0], Bump(t[1..], k));
    }
  }

  /** Bumping lists `k` and leaves the lines of every other group as they were. */
  lemma {:induction false} BumpMembers<K>(t: seq<Usage<K>>, k: K)
    ensures Listed(Bump(t, k), k)
    ensures forall e :: e in t && e.key != k ==> e in Bump(t, k)
    ensures forall e :: e in Bump(t, k) && e.key != k ==> e in t
  {
    if t == [] {
      assert Bump(t, k)[0].key == k;
    } else {
      assert t == [t[0]] + t[1..];
      if t[0].key == k {
        assert Bump(t, k)[0].key == k;
      } else {
        BumpMembers(t[1..], k);
        var e :| e in Bump(t[1..], k) && e.key == k;
        assert e in Bump(t, k);
      }
    }
  }

  /** In a tally without duplicates, bumping raises the line of `k` by one, or starts it at one. */
  lemma {:induction false} BumpHit<K>(t: seq<Usage<K>>, k: K)
    requires DistinctKeys(t)
    ensures forall e :: e in Bump(t, k) && e.key == k ==>
              if Listed(t, k) then e.usage >= 1 && Usage(k, e.usage - 1) in t else e.usage == 1
  {
    if t != [] {
      assert t == [t[0]] + t[1..];
      ConsDistinct(t[0], t[1..]);
      if t[0].key == k {
        forall e | e in Bump(t, k) && e.key == k ensures e == Usage(k, t[0].usage + 1) {
          assert e !in t[1..];
        }
      } else {
        BumpHit(t[1..], k);
        assert Listed(t, k) ==> Listed(t[1..], k);
      }
    }
  }

  /** Bumping never duplicates a group. */
  lemma {:induction false} BumpDistinct<K>(t: seq<Usage<K>>, k: K)
    requires DistinctKeys(t)
    ensures DistinctKeys(Bump(t, k))
  {
    if t != [] {
      ConsDistinct(t[0], t[1..]);
      if t[0].key == k {
        ConsDistinct(Usage(k, t[0].usage + 1), t[1..]);
      } else {
        var rest := Bump(t[1..], k);
        BumpDistinct(t[1..], k);
        BumpMembers(t[1..], k);
        forall e | e in rest ensures e.key != t[0].key {
          if e.key != k {
            assert e in t[1..];
          }
        }
        ConsDistinct(t[0], rest);
      }
    }
  }

  /** `Tally` is a correct (unsorted) grouped count. */
  lemma {:induction false} TallyIsTally<K>(ks: seq<K>)
    ensures IsTally(ks, Tally(ks))
  {
    if ks != [] {
      var p, k := ks[..|ks| - 1], ks[|ks| - 1];
      assert ks == p + [k];
      var t := Tally(p);
      TallyIsTally(p);
      BumpSum(t, k);
      BumpMembers(t, k);
      BumpHit(t, k);
      BumpDistinct(t, k);
      var b := Tally(ks);
      assert b == Bump(t, k);
      forall e | e in b ensures e.key in ks && e.usage == Count(ks, e.key) {
        if e.key != k {
          assert e in t;
        } else if Listed(t, k) {
          assert Usage(k, e.usage - 1) in t;
        } else {
          assert k !in p;
        }
      }
      forall x | x in ks ensures Listed(b, x) {
        if x != k {
          assert x in p;
          var e :| e in t && e.key == x;
          assert e in b;
        }
      }
    }
  }

  /** Inserting adds exactly the one line. */
  lemma {:induction false} InsertPerm<K>(u: Usage<K>, s: seq<Usage<K>>)
    ensures multiset(Insert(u, s)) == multiset(s) + multiset{u}
  {
    if s != [] && u.usage < s[0].usage {
      InsertPerm(u, s[1..]);
      assert s == [s[0]] + s[1..];
    }
  }

  /** Inserting adds the line's usage to the total. */
  lemma {:induction false} InsertSum<K>(u: Usage<K>, s: seq<Usage<K>>)
    ensures Sum(Insert(u, s)) == Sum(s) + u.usage
  {
    if s == [] || u.usage >= s[0].usage {
      ConsSum(u, s);
    } else {
      InsertSum(u, s[1..]);
      ConsSum(s[0], Insert(u, s[1..]));
      assert s == [s[0]] + s[1..];
      ConsSum(s[0], s[1..]);
    }
  }

  /** Inserting into a sorted sequence keeps it sorted. */
  lemma {:induction false} InsertOrdered<K>(u: Usage<K>, s: seq<Usage<K>>)
    requires NonIncreasing(s)
    ensures NonIncreasing(Insert(u, s))
  {
    if s == [] || u.usage >= s[0].usage {
      forall e | e in s ensures u.usage >= e.usage {
        var j :| 0 <= j < |s| && s[j] == e;
      }
      ConsNonIncreasing(u, s);
    } else {
      var rest := Insert(u, s[1..]);
      assert s == [s[0]] + s[1..];
      ConsNonIncreasing(s[0], s[1..]);
      InsertOrdered(u, s[1..]);
      InsertPerm(u, s[1..]);
      forall e | e in rest ensures s[0].usage >= e.usage {
        assert e in multiset(rest);
      }
      ConsNonIncreasing(s[0], rest);
    }
  }

  /** Inserting a new group keeps the groups distinct. */
  lemma {:induction false} InsertDistinct<K>(u: Usage<K>, s: seq<Usage<K>>)
    requires DistinctKeys(s) && !Listed(s, u.key)
    ensures DistinctKeys(Insert(u, s))
  {
    if s == [] || u.usage >= s[0].usage {
      ConsDistinct(u, s);
    } else {
      var rest := Insert(u, s[1..]);
      assert s == [s[0]] + s[1..];
      ConsDistinct(s[0], s[1..]);
      assert !Listed(s[1..], u.key) by {
        forall e | e in s[1..] ensures e.key != u.key {
          assert e in s;
        }
      }
      InsertDistinct(u, s[1..]);
      InsertPerm(u, s[1..]);
      forall e | e in rest ensures e.key != s[0].key {
        assert e in multiset(rest);
        assert e == u || e in s[1..];
      }
      ConsDistinct(s[0], rest);
    }
  }

  /** Sorting permutes the lines. */
  lemma {:induction false} SortPerm<K>(s: seq<Usage<K>>)
    ensures multiset(SortByUsage(s)) == multiset(s)
  {
    if s != [] {
      SortPerm(s[1..]);
      InsertPerm(s[0], SortByUsage(s[1..]));
      assert s == [s[0]] + s[1..];
    }
  }

  /** Sorting keeps the total. */
  lemma {:induction false} SortSum<K>(s: seq<Usage<K>>)
    ensures Sum(SortByUsage(s)) == Sum(s)
  {
    if s != [] {
      SortSum(s[1..]);
      InsertSum(s[0], SortByUsage(s[1..]));
      assert s == [s[0]] + s[1..];
      ConsSum(s[0], s[1..]);
    }
  }

  /** Sorting orders by descending usage. */
  lemma {:induction false} SortOrdered<K>(s: seq<Usage<K>>)
    ensures NonIncreasing(SortByUsage(s))
  {
    if s != [] {
      SortOrdered(s[1..]);
      InsertOrdered(s[0], SortByUsage(s[1..]));
    }
  }

  /** Sorting keeps the groups distinct. */
  lemma {:induction false} SortDistinct<K>(s: seq<Usage<K>>)
    requires DistinctKeys(s)
    ensures DistinctKeys(SortByUsage(s))
  {
    if s != [] {
      var rest := SortByUsage(s[1..]);
      assert s == [s[0]] + s[1..];
      ConsDistinct(s[0], s[1..]);
      SortDistinct(s[1..]);
      SortPerm(s[1..]);
      forall e | e in rest ensures e.key != s[0].key {
        assert e in multiset(rest);
      }
      InsertDistinct(s[0], rest);
    }
  }

  /** Sorting a correct tally gives a correct usage report. */
  lemma SortKeepsTally<K>(ks: seq<K>, t: seq<Usage<K>>)
    requires IsTally(ks, t)
    ensures IsUsageReport(ks, SortByUsage(t))
  {
    var r := SortByUsage(t);
    SortPerm(t);
    SortSum(t);
    SortOrdered(t);
    SortDistinct(t);
    forall e | e in r ensures e in t {
      assert e in multiset(r);
    }
    forall k | k in ks ensures Listed(r, k) {
      var e :| e in t && e.key == k;
      assert e in multiset(t);
    }
  }

  /**
   * Any two correct reports over the same rows hold the same lines: the only
   * freedom SQL has is the order among equal counts.
   */
  lemma ReportsAgree<K>(ks: seq<K>, r1: seq<Usage<K>>, r2: seq<Usage<K>>)
    requires IsTally(ks, r1) && IsTally(ks, r2)
    ensures forall e :: e in r1 <==> e in r2
  {
    forall e | e in r1 ensures e in r2 {
      var e' :| e' in r2 && e'.key == e.key;
    }
    forall e | e in r2 ensures e in r1 {
      var e' :| e' in r1 && e'.key == e.key;
    }
  }
}
