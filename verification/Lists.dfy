/** Kernel lists of distinct members, as sequences of identifiers. */
module Lists {

  ghost predicate NoDups(q: seq<nat>) {
    forall i, j :: 0 <= i < j < |q| ==> q[i] != q[j]
  }

  /** list_del of one member */
  function Without(q: seq<nat>, t: nat): (r: seq<nat>)
    ensures t !in q ==> r == q
  {
    if q == [] then [] else if q[0] == t then q[1..] else [q[0]] + Without(q[1..], t)
  }

  ghost predicate Before(q: seq<nat>, t: nat, u: nat) {
    exists i, j :: 0 <= i < j < |q| && q[i] == t && q[j] == u
  }

  lemma BeforeMembers(q: seq<nat>, a: nat, b: nat)
    requires Before(q, a, b)
    ensures a in q && b in q
  {
  }

  lemma {:induction false} WithoutKeeps(q: seq<nat>, t: nat)
    requires NoDups(q)
    ensures NoDups(Without(q, t)) && t !in Without(q, t)
    ensures forall u :: u in Without(q, t) <==> u in q && u != t
  {
    if q != [] {
      assert q == [q[0]] + q[1..];
      assert q[0] !in q[1..];
      assert NoDups(q[1..]) by {
        forall i, j | 0 <= i < j < |q[1..]| ensures q[1..][i] != q[1..][j] {
          assert q[1..][i] == q[i + 1] && q[1..][j] == q[j + 1];
        }
      }
      WithoutKeeps(q[1..], t);
      if q[0] != t {
        var r := Without(q, t);
        forall i, j | 0 <= i < j < |r| ensures r[i] != r[j] {
          if i == 0 { assert r[j] in Without(q[1..], t); }
        }
      }
    }
  }

  lemma {:induction false} WithoutOrder(q: seq<nat>, t: nat, a: nat, b: nat)
    requires Before(q, a, b) && a != t && b != t
    ensures Before(Without(q, t), a, b)
  {
    var i, j :| 0 <= i < j < |q| && q[i] == a && q[j] == b;
    if q[0] == t {
      assert q[1..][i - 1] == a && q[1..][j - 1] == b;
    } else if i == 0 {
      assert q[1..][j - 1] == b;
      WithoutHas(q[1..], t, b);
      var k :| 0 <= k < |Without(q[1..], t)| && Without(q[1..], t)[k] == b;
      assert Without(q, t)[0] == a && Without(q, t)[k + 1] == b;
    } else {
      assert q[1..][i - 1] == a && q[1..][j - 1] == b;
      WithoutOrder(q[1..], t, a, b);
      var m, k :| 0 <= m < k < |Without(q[1..], t)| && Without(q[1..], t)[m] == a && Without(q[1..], t)[k] == b;
      assert Without(q, t)[m + 1] == a && Without(q, t)[k + 1] == b;
    }
  }

  lemma {:induction false} WithoutHas(q: seq<nat>, t: nat, b: nat)
    requires b in q && b != t
    ensures b in Without(q, t)
  {
    if q[0] != t && q[0] != b { WithoutHas(q[1..], t, b); }
  }

  lemma {:induction false} WithoutOrderBack(q: seq<nat>, t: nat, a: nat, b: nat)
    requires Before(Without(q, t), a, b)
    ensures Before(q, a, b)
  {
    var r := Without(q, t);
    var i, j :| 0 <= i < j < |r| && r[i] == a && r[j] == b;
    if q[0] == t {
      assert q[i + 1] == a && q[j + 1] == b;
    } else {
      var rest := Without(q[1..], t);
      if i == 0 {
        assert rest[j - 1] == b;
        MemberBack(q[1..], t, b);
        var k :| 0 <= k < |q[1..]| && q[1..][k] == b;
        assert q[0] == a && q[k + 1] == b;
      } else {
        assert rest[i - 1] == a && rest[j - 1] == b;
        WithoutOrderBack(q[1..], t, a, b);
        var m, k :| 0 <= m < k < |q[1..]| && q[1..][m] == a && q[1..][k] == b;
        assert q[m + 1] == a && q[k + 1] == b;
      }
    }
  }

  lemma {:induction false} MemberBack(q: seq<nat>, t: nat, b: nat)
    requires b in Without(q, t)
    ensures b in q
  {
    if q[0] != t && q[0] != b { MemberBack(q[1..], t, b); }
  }
}
