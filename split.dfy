/**
 * Splitting a sequence on a separator and joining pieces back together,
 * with the semantics of Rust's `str::split` for a non-empty pattern:
 * matches are found from the left, and the search resumes right after
 * each match.
 */
module Split {

  /** `sep` occurs in `s` starting at index `j`. */
  predicate Occurs<T(==)>(s: seq<T>, sep: seq<T>, j: int) {
    0 <= j && j + |sep| <= |s| && s[j..j + |sep|] == sep
  }

  ghost predicate Contains<T>(s: seq<T>, sep: seq<T>) {
    exists j :: Occurs(s, sep, j)
  }

  /** No proper suffix of `sep` is also a prefix of it, so two occurrences never overlap. */
  ghost predicate Unbordered<T>(sep: seq<T>) {
    forall k :: 0 < k < |sep| ==> sep[k..] != sep[..|sep| - k]
  }

  /** The first index at or after `from` where `sep` occurs, or -1 when there is none. */
  function IndexFrom<T(==)>(s: seq<T>, sep: seq<T>, from: nat): (r: int)
    ensures r == -1 || (from <= r && Occurs(s, sep, r))
    ensures forall j :: from <= j && (r == -1 || j < r) ==> !Occurs(s, sep, j)
    decreases |s| - from
  {
    if from + |sep| > |s| then -1
    else if s[from..from + |sep|] == sep then from
    else IndexFrom(s, sep, from + 1)
  }

  function Split<T(==)>(s: seq<T>, sep: seq<T>): (pieces: seq<seq<T>>)
    requires |sep| > 0
    ensures |pieces| >= 1
    decreases |s|
  {
    var i := IndexFrom(s, sep, 0);
    if i < 0 then [s] else [s[..i]] + Split(s[i + |sep|..], sep)
  }

  /** The pieces with `sep` between each adjacent pair. */
  function Join<T>(pieces: seq<seq<T>>, sep: seq<T>): seq<T> {
    if pieces == [] then []
    else if |pieces| == 1 then pieces[0]
    else pieces[0] + sep + Join(pieces[1..], sep)
  }

  /** The pieces each followed by `sep`. */
  function Terminate<T>(pieces: seq<seq<T>>, sep: seq<T>): seq<T> {
    if pieces == [] then [] else pieces[0] + sep + Terminate(pieces[1..], sep)
  }

  /** Terminating a list is its first piece and the separator in front of terminating the rest. */
  lemma TerminateCons<T>(p: seq<T>, rest: seq<seq<T>>, sep: seq<T>)
    ensures Terminate([p] + rest, sep) == p + sep + Terminate(rest, sep)
  {
    assert ([p] + rest)[0] == p && ([p] + rest)[1..] == rest;
  }

  /** Terminating every piece is joining them and ending with one more separator. */
  lemma {:induction false} TerminateIsJoin<T>(pieces: seq<seq<T>>, sep: seq<T>)
    requires |pieces| >= 1
    ensures Terminate(pieces, sep) == Join(pieces, sep) + sep
    decreases |pieces|
  {
    if |pieces| > 1 {
      TerminateIsJoin(pieces[1..], sep);
    } else {
      assert pieces[1..] == [];
    }
  }

  /** `IndexFrom` finds an occurrence at `k` when none lies between `from` and `k`. */
  lemma IndexFromFinds<T>(s: seq<T>, sep: seq<T>, from: nat, k: nat)
    requires from <= k && Occurs(s, sep, k)
    requires forall j :: from <= j < k ==> !Occurs(s, sep, j)
    ensures IndexFrom(s, sep, from) == k
  {
    var r := IndexFrom(s, sep, from);
    assert r != -1 && !(k < r);
  }

  lemma NotContainedNotFound<T>(s: seq<T>, sep: seq<T>)
    requires !Contains(s, sep)
    ensures IndexFrom(s, sep, 0) == -1
  {
    var r := IndexFrom(s, sep, 0);
    assert r == -1 || Occurs(s, sep, r);
  }

  /** A sequence that does not contain the separator splits into itself alone. */
  lemma SplitUncut<T>(s: seq<T>, sep: seq<T>)
    requires |sep| > 0
    ensures !Contains(s, sep) ==> Split(s, sep) == [s]
  {
    if !Contains(s, sep) {
      NotContainedNotFound(s, sep);
    }
  }

  /** Joining the pieces of a split gives back the original sequence. */
  lemma {:induction false} JoinSplit<T>(s: seq<T>, sep: seq<T>)
    requires |sep| > 0
    ensures Join(Split(s, sep), sep) == s
    decreases |s|
  {
    var i := IndexFrom(s, sep, 0);
    if i >= 0 {
      var head, rest := s[..i], s[i + |sep|..];
      var tail := Split(rest, sep);
      var pieces := [head] + tail;
      assert pieces[0] == head && pieces[1..] == tail;
      JoinSplit(rest, sep);
      calc {
        Join(Split(s, sep), sep);
        Join(pieces, sep);
        head + sep + Join(tail, sep);
        head + sep + rest;
        { assert s[i..i + |sep|] == sep; }
        s;
      }
    }
  }

  /** No piece of a split contains the separator. */
  lemma {:induction false} SplitPiecesFree<T>(s: seq<T>, sep: seq<T>)
    requires |sep| > 0
    ensures forall p :: p in Split(s, sep) ==> !Contains(p, sep)
    decreases |s|
  {
    var i := IndexFrom(s, sep, 0);
    if i < 0 {
      forall j | Occurs(s, sep, j) ensures false { }
    } else {
      var head := s[..i];
      forall j | Occurs(head, sep, j) ensures false {
        assert head[j..j + |sep|] == s[j..j + |sep|];
        assert Occurs(s, sep, j);
      }
      var rest := s[i + |sep|..];
      SplitPiecesFree(rest, sep);
      assert Split(s, sep) == [head] + Split(rest, sep);
    }
  }

  /**
   * An unbordered separator placed after a piece free of it is found exactly
   * there: no occurrence can start inside the piece and run into the separator.
   */
  lemma FirstAfterFreePiece<T>(a: seq<T>, sep: seq<T>, b: seq<T>)
    requires Unbordered(sep) && !Contains(a, sep)
    ensures IndexFrom(a + sep + b, sep, 0) == |a|
  {
    var s := a + sep + b;
    assert s[|a|..|a| + |sep|] == sep;
    forall j | 0 <= j < |a| ensures !Occurs(s, sep, j) {
      if j + |sep| <= |a| {
        assert a[j..j + |sep|] == s[j..j + |sep|];
        assert !Occurs(a, sep, j);
      } else {
        var k := |a| - j;
        assert s[j..j + |sep|][k..] == s[|a|..j + |sep|] == sep[..|sep| - k];
        assert sep[k..] != sep[..|sep| - k];
      }
    }
    IndexFromFinds(s, sep, 0, |a|);
  }

  /** Splitting undoes joining, for pieces that do not contain an unbordered separator. */
  lemma {:induction false} SplitJoin<T>(pieces: seq<seq<T>>, sep: seq<T>)
    requires |sep| > 0 && Unbordered(sep) && |pieces| >= 1
    requires forall i :: 0 <= i < |pieces| ==> !Contains(pieces[i], sep)
    ensures Split(Join(pieces, sep), sep) == pieces
    decreases |pieces|
  {
    var p := pieces[0];
    if |pieces| == 1 {
      NotContainedNotFound(p, sep);
    } else {
      var rest := Join(pieces[1..], sep);
      FirstAfterFreePiece(p, sep, rest);
      var s := p + sep + rest;
      assert s[..|p|] == p;
      assert s[|p| + |sep|..] == rest;
      SplitJoin(pieces[1..], sep);
      assert pieces == [p] + pieces[1..];
    }
  }

  /** A join starts where its first piece starts. */
  lemma JoinStart<T>(pieces: seq<seq<T>>, sep: seq<T>)
    requires |pieces| >= 1 && pieces[0] != []
    ensures Join(pieces, sep) != [] && Join(pieces, sep)[0] == pieces[0][0]
  {
  }

  /** A join ends where its last piece ends. */
  lemma {:induction false} JoinEnd<T>(pieces: seq<seq<T>>, sep: seq<T>)
    requires |pieces| >= 1 && pieces[|pieces| - 1] != []
    ensures var j, last := Join(pieces, sep), pieces[|pieces| - 1];
      j != [] && j[|j| - 1] == last[|last| - 1]
    decreases |pieces|
  {
    if |pieces| > 1 {
      JoinEnd(pieces[1..], sep);
    }
  }

  /** Every element of a terminated sequence comes from one of the pieces or from the separator. */
  lemma {:induction false} TerminateElements<T>(pieces: seq<seq<T>>, sep: seq<T>, x: T)
    requires x !in sep
    requires forall i :: 0 <= i < |pieces| ==> x !in pieces[i]
    ensures x !in Terminate(pieces, sep)
    decreases |pieces|
  {
    if pieces != [] {
      TerminateElements(pieces[1..], sep, x);
    }
  }
}
