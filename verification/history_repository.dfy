/** The record store's one query: a member's records, newest first.
    The store is the sequence of records in the order they were saved; a record is
    identified by its index there. The database orders by creation time only and
    leaves ties open; this model breaks a tie in favour of the record saved later. */
module HistoryRepository {
  import opened Entities

  /** Record i comes before record j in creation-time-descending order. */
  predicate Newer(hs: seq<History>, i: nat, j: nat)
  {
    i < |hs| && j < |hs| &&
    (hs[i].createdAt > hs[j].createdAt || (hs[i].createdAt == hs[j].createdAt && i > j))
  }

  /** Every index names a stored record, and the list runs strictly newest first. */
  predicate SortedDesc(hs: seq<History>, ids: seq<nat>)
  {
    && (forall a :: 0 <= a < |ids| ==> ids[a] < |hs|)
    && (forall a, b :: 0 <= a < b < |ids| ==> Newer(hs, ids[a], ids[b]))
  }

  /** Puts record i into its place in a newest-first list. */
  function Insert(hs: seq<History>, i: nat, ids: seq<nat>): (r: seq<nat>)
    requires i < |hs| && i !in ids && SortedDesc(hs, ids)
    ensures |r| == |ids| + 1
    ensures forall x :: x in r <==> x in ids || x == i
    ensures SortedDesc(hs, r)
  {
    if ids == [] then [i]
    else if Newer(hs, i, ids[0]) then [i] + ids
    else
      var rest := Insert(hs, i, ids[1..]);
      assert forall b :: 0 <= b < |rest| ==> Newer(hs, ids[0], rest[b]) by {
        forall b | 0 <= b < |rest|
          ensures Newer(hs, ids[0], rest[b])
        {
          if rest[b] != i {
            assert rest[b] in rest;
            var a :| 0 <= a < |ids[1..]| && ids[1..][a] == rest[b];
            assert ids[a + 1] == rest[b];
          }
        }
      }
      [ids[0]] + rest
  }

  /** findAllByMemberOrderByCreatedAtDesc restricted to the first n saved records:
      exactly the member's records among them, newest first. */
  function FindAllByMemberDesc(hs: seq<History>, member: MemberId, n: nat): (r: seq<nat>)
    requires n <= |hs|
    ensures SortedDesc(hs, r)
    ensures forall k {:trigger k in r} :: k in r <==> 0 <= k < n && hs[k].member.id == member
  {
    if n == 0 then []
    else
      var older := FindAllByMemberDesc(hs, member, n - 1);
      if hs[n - 1].member.id == member then Insert(hs, n - 1, older) else older
  }

  /** The query over the whole store. */
  function FindAllByMember(hs: seq<History>, member: MemberId): (r: seq<nat>)
    ensures SortedDesc(hs, r)
    ensures forall k {:trigger k in r} :: k in r <==> 0 <= k < |hs| && hs[k].member.id == member
  {
    FindAllByMemberDesc(hs, member, |hs|)
  }

  /** An independent description of "the member's latest record". */
  predicate IsNewest(hs: seq<History>, member: MemberId, k: nat)
  {
    && k < |hs| && hs[k].member.id == member
    && forall j :: 0 <= j < |hs| && j != k && hs[j].member.id == member ==> Newer(hs, k, j)
  }

  /** The head of the query is the member's latest record, and nothing else is. */
  lemma NewestFirst(hs: seq<History>, member: MemberId)
    ensures FindAllByMember(hs, member) == [] <==>
              forall k :: 0 <= k < |hs| ==> hs[k].member.id != member
    ensures FindAllByMember(hs, member) != [] ==> IsNewest(hs, member, FindAllByMember(hs, member)[0])
    ensures forall k :: IsNewest(hs, member, k) ==>
              FindAllByMember(hs, member) != [] && k == FindAllByMember(hs, member)[0]
  {
    var r := FindAllByMember(hs, member);
    if r != [] {
      assert r[0] in r;
      forall j | 0 <= j < |hs| && j != r[0] && hs[j].member.id == member
        ensures Newer(hs, r[0], j)
      {
        assert j in r;
        var b :| 0 <= b < |r| && r[b] == j;
      }
    } else {
      assert forall k :: 0 <= k < |hs| ==> hs[k].member.id != member by {
        forall k | 0 <= k < |hs| ensures hs[k].member.id != member {
          assert k !in r;
        }
      }
    }
  }

  /** Two stores that agree on who owns each record and when it was created order it alike. */
  predicate SameKeys(hs: seq<History>, hs': seq<History>, n: nat)
  {
    && n <= |hs| && n <= |hs'|
    && forall k :: 0 <= k < n ==>
         hs[k].member.id == hs'[k].member.id && hs[k].createdAt == hs'[k].createdAt
  }

  lemma {:induction false} InsertFrame(hs: seq<History>, hs': seq<History>, n: nat, i: nat, ids: seq<nat>)
    requires SameKeys(hs, hs', n)
    requires i < n && i !in ids && SortedDesc(hs, ids)
    requires forall a :: 0 <= a < |ids| ==> ids[a] < n
    ensures SortedDesc(hs', ids)
    ensures Insert(hs, i, ids) == Insert(hs', i, ids)
  {
    if ids != [] {
      InsertFrame(hs, hs', n, i, ids[1..]);
    }
  }

  /** The order of a member's records depends only on owners and creation times. */
  lemma {:induction false} FindAllFrame(hs: seq<History>, hs': seq<History>, member: MemberId, n: nat)
    requires SameKeys(hs, hs', n)
    ensures FindAllByMemberDesc(hs, member, n) == FindAllByMemberDesc(hs', member, n)
  {
    if n > 0 {
      assert SameKeys(hs, hs', n - 1);
      FindAllFrame(hs, hs', member, n - 1);
      var older := FindAllByMemberDesc(hs, member, n - 1);
      assert older == FindAllByMemberDesc(hs', member, n - 1);
      if hs[n - 1].member.id == member {
        assert hs'[n - 1].member.id == member;
        BelowBound(hs, member, n - 1);
        InsertFrame(hs, hs', n, n - 1, older);
        assert FindAllByMemberDesc(hs, member, n) == Insert(hs, n - 1, older);
        assert FindAllByMemberDesc(hs', member, n) == Insert(hs', n - 1, older);
      } else {
        assert hs'[n - 1].member.id != member;
        assert FindAllByMemberDesc(hs, member, n) == older;
        assert FindAllByMemberDesc(hs', member, n) == older;
      }
    }
  }

  lemma BelowBound(hs: seq<History>, member: MemberId, n: nat)
    requires n <= |hs|
    ensures forall a :: 0 <= a < |FindAllByMemberDesc(hs, member, n)| ==> FindAllByMemberDesc(hs, member, n)[a] < n
  {
    var r := FindAllByMemberDesc(hs, member, n);
    forall a | 0 <= a < |r| ensures r[a] < n {
      assert r[a] in r;
    }
  }
}
