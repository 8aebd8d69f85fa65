// Traversals of std::set<int> and std::map<int, ...>: elements in ascending order.

module IntSets {
  lemma {:induction false} LeastExists(s: set<int>)
    requires |s| > 0
    ensures exists m :: m in s && forall x | x in s :: m <= x
    decreases |s|
  {
    if forall y :: y !in s {
      assert false;
    }
    var y :| y in s;
    var rest := s - {y};
    if |rest| == 0 {
      assert s == {y};
    } else {
      LeastExists(rest);
      var m :| m in rest && forall x | x in rest :: m <= x;
      LeastOf(s, rest, y, m);
    }
  }

  lemma LeastOf(s: set<int>, rest: set<int>, y: int, m: int)
    requires y in s && rest == s - {y} && m in rest && forall x | x in rest :: m <= x
    ensures exists least :: least in s && forall x | x in s :: least <= x
  {
    var least := if y <= m then y else m;
    assert least in s;
    forall x | x in s ensures least <= x {
      assert x == y || x in rest;
    }
  }

  function Least(s: set<int>): (m: int)
    requires s != {}
    ensures m in s && forall x | x in s :: m <= x
  {
    LeastExists(s);
    var m :| m in s && forall x | x in s :: m <= x;
    m
  }

  function AscendingSeq(s: set<int>): seq<int> {
    if s == {} then [] else [Least(s)] + AscendingSeq(s - {Least(s)})
  }

  lemma {:induction false} AscendingSeqIs(s: set<int>)
    ensures forall x :: x in AscendingSeq(s) <==> x in s
    ensures forall i, j | 0 <= i < j < |AscendingSeq(s)| :: AscendingSeq(s)[i] < AscendingSeq(s)[j]
    decreases s
  {
    if s != {} {
      var rest := AscendingSeq(s - {Least(s)});
      AscendingSeqIs(s - {Least(s)});
      assert forall x | x in rest :: Least(s) < x;
      forall i, j | 0 <= i < j < |AscendingSeq(s)| ensures AscendingSeq(s)[i] < AscendingSeq(s)[j] {
        assert AscendingSeq(s)[j] == rest[j - 1] && rest[j - 1] in rest;
      }
    }
  }

  lemma LeastOfPart(part: set<int>, s: int)
    requires s in part && forall x | x in part :: s <= x
    ensures AscendingSeq(part) == [s] + AscendingSeq(part - {s})
  {
  }

  // The part of an ascending traversal that lies in `rest`.
  lemma AscendingSplit(ids: set<int>, rest: set<int>, s: int)
    requires s in rest && forall x | x in rest :: s <= x
    ensures AscendingSeq(ids * rest) == (if s in ids then [s] else []) + AscendingSeq(ids * (rest - {s}))
  {
    if s in ids {
      LeastOfPart(ids * rest, s);
      assert ids * rest - {s} == ids * (rest - {s});
    } else {
      assert ids * rest == ids * (rest - {s});
    }
  }
}
