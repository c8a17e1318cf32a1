/** The comma-separated genre list of the book forms (cmd/web/handlers.go):
    `splitAndTrim` and the genre loop of createBook and updateBook built
    on it. */
module Genres {
  import opened Strings

  /** Each piece trimmed of white space. */
  function Trims(parts: seq<string>): (r: seq<string>)
    ensures |r| == |parts|
    ensures forall k :: 0 <= k < |parts| ==> r[k] == TrimSpace(parts[k])
  {
    seq(|parts|, k requires 0 <= k < |parts| => TrimSpace(parts[k]))
  }

  /** The non-empty strings of `xs`, in their order. */
  function NonEmpty(xs: seq<string>): (r: seq<string>)
    ensures |r| <= |xs|
    ensures forall k :: 0 <= k < |r| ==> r[k] != ""
  {
    if xs == [] then []
    else if xs[0] != "" then [xs[0]] + NonEmpty(xs[1..])
    else NonEmpty(xs[1..])
  }

  /** The genres a comma-separated field stands for: the pieces between
      commas, trimmed, without the empty ones. */
  function TrimmedFields(s: string): seq<string> {
    NonEmpty(Trims(Split(s, ',')))
  }

  /** splitAndTrim: splits at every comma, trims white space from each
      piece and keeps the pieces that are not empty. */
  method SplitAndTrim(s: string) returns (result: seq<string>)
    ensures result == TrimmedFields(s)
  {
    var parts := Split(s, ',');
    ghost var trims := Trims(parts);
    result := [];
    var i := 0;
    while i < |parts|
      invariant 0 <= i <= |parts|
      invariant result + NonEmpty(trims[i..]) == NonEmpty(trims)
    {
      var trimmed := TrimSpace(parts[i]);
      assert trims[i..][0] == trimmed && trims[i..][1..] == trims[i + 1..];
      if trimmed != "" {
        result := result + [trimmed];
      }
      i := i + 1;
    }
    assert trims[i..] == [];
  }

  /** Positions in the tail, moved one step to the right. */
  function Shifted(idx: seq<nat>): (r: seq<nat>)
    ensures |r| == |idx| && forall k :: 0 <= k < |idx| ==> r[k] == idx[k] + 1
  {
    seq(|idx|, k requires 0 <= k < |idx| => idx[k] + 1)
  }

  /** The positions in `xs` of the strings NonEmpty keeps. */
  function Positions(xs: seq<string>): (idx: seq<nat>)
    ensures |idx| == |NonEmpty(xs)|
  {
    if xs == [] then []
    else if xs[0] != "" then [0] + Shifted(Positions(xs[1..]))
    else Shifted(Positions(xs[1..]))
  }

  /** The k-th kept string is the string at the k-th position. */
  lemma {:induction false} PositionsValues(xs: seq<string>)
    ensures forall k :: 0 <= k < |Positions(xs)| ==>
              Positions(xs)[k] < |xs| && NonEmpty(xs)[k] == xs[Positions(xs)[k]]
  {
    if xs != [] {
      PositionsValues(xs[1..]);
      var rest := Positions(xs[1..]);
      var idx := Positions(xs);
      var r := NonEmpty(xs);
      forall k | 0 <= k < |idx| ensures idx[k] < |xs| && r[k] == xs[idx[k]] {
        if xs[0] != "" {
          if k > 0 {
            assert idx[k] == rest[k - 1] + 1;
            assert xs[1..][rest[k - 1]] == xs[idx[k]];
          }
        } else {
          assert idx[k] == rest[k] + 1;
          assert xs[1..][rest[k]] == xs[idx[k]];
        }
      }
    }
  }

  /** The positions increase. */
  lemma {:induction false} PositionsIncrease(xs: seq<string>)
    ensures forall k, l :: 0 <= k < l < |Positions(xs)| ==> Positions(xs)[k] < Positions(xs)[l]
  {
    if xs != [] {
      PositionsIncrease(xs[1..]);
      var rest := Positions(xs[1..]);
      var idx := Positions(xs);
      forall k, l | 0 <= k < l < |idx| ensures idx[k] < idx[l] {
        if xs[0] != "" {
          if k > 0 {
            assert idx[k] == rest[k - 1] + 1 && idx[l] == rest[l - 1] + 1;
          }
        } else {
          assert idx[k] == rest[k] + 1 && idx[l] == rest[l] + 1;
        }
      }
    }
  }

  /** Every non-empty string's position is listed. */
  lemma {:induction false} PositionsComplete(xs: seq<string>, j: nat)
    requires j < |xs| && xs[j] != ""
    ensures j in Positions(xs)
  {
    var idx := Positions(xs);
    if j == 0 {
      assert idx[0] == 0;
    } else {
      assert xs[1..][j - 1] == xs[j];
      PositionsComplete(xs[1..], j - 1);
      var rest := Positions(xs[1..]);
      var k :| 0 <= k < |rest| && rest[k] == j - 1;
      if xs[0] != "" {
        assert idx[k + 1] == j;
      } else {
        assert idx[k] == j;
      }
    }
  }

  /** splitAndTrim keeps the order of the pieces: the k-th genre is the
      trimmed piece at position idx[k], the positions increase, and no
      piece that is not blank after trimming is lost. */
  lemma SplitAndTrimOrder(s: string) returns (idx: seq<nat>)
    ensures var parts := Split(s, ',');
            && |idx| == |TrimmedFields(s)|
            && (forall k :: 0 <= k < |idx| ==> idx[k] < |parts| && TrimmedFields(s)[k] == TrimSpace(parts[idx[k]]))
            && (forall k, l :: 0 <= k < l < |idx| ==> idx[k] < idx[l])
            && (forall j :: 0 <= j < |parts| && TrimSpace(parts[j]) != "" ==> j in idx)
  {
    var parts := Split(s, ',');
    var trims := Trims(parts);
    idx := Positions(trims);
    PositionsValues(trims);
    PositionsIncrease(trims);
    forall j | 0 <= j < |parts| && TrimSpace(parts[j]) != "" ensures j in idx {
      PositionsComplete(trims, j);
    }
  }

  /** Every genre splitAndTrim yields is non-empty, has no white space at
      its ends and holds no comma. */
  lemma CleanGenres(s: string)
    ensures forall k :: 0 <= k < |TrimmedFields(s)| ==>
              TrimmedFields(s)[k] != "" && Trimmed(TrimmedFields(s)[k]) && ',' !in TrimmedFields(s)[k]
  {
    var parts := Split(s, ',');
    var r := TrimmedFields(s);
    forall k | 0 <= k < |r| ensures Trimmed(r[k]) && ',' !in r[k] {
      PositionsValues(Trims(parts));
      var j := Positions(Trims(parts))[k];
      assert ',' !in parts[j];
    }
  }

  /** A genre as the forms produce it. */
  predicate CleanGenre(g: string) {
    g != "" && Trimmed(g) && ',' !in g
  }

  /** Already trimmed, non-empty pieces are kept as they are. */
  lemma KeepTrimmedOfClean(gs: seq<string>)
    requires forall k :: 0 <= k < |gs| ==> gs[k] != "" && Trimmed(gs[k])
    ensures NonEmpty(Trims(gs)) == gs
  {
    forall k | 0 <= k < |gs| ensures Trims(gs)[k] == gs[k] {
      TrimSpaceOfTrimmed(gs[k]);
    }
    assert Trims(gs) == gs;
    NonEmptyOfNonEmpty(gs);
  }

  lemma {:induction false} NonEmptyOfNonEmpty(xs: seq<string>)
    requires forall k :: 0 <= k < |xs| ==> xs[k] != ""
    ensures NonEmpty(xs) == xs
  {
    if xs != [] {
      NonEmptyOfNonEmpty(xs[1..]);
      assert [xs[0]] + xs[1..] == xs;
    }
  }

  /** Writing a genre list with commas and reading it back gives the same
      list. */
  lemma JoinThenSplitAndTrim(gs: seq<string>)
    requires forall k :: 0 <= k < |gs| ==> CleanGenre(gs[k])
    ensures TrimmedFields(Join(gs, ',')) == gs
  {
    if gs == [] {
      assert Split("", ',') == [""];
    } else {
      SplitJoin(gs, ',');
      KeepTrimmedOfClean(gs);
    }
  }

  /** Parsing is idempotent: the genres of a field, written back with
      commas, parse to themselves. */
  lemma SplitAndTrimIdempotent(s: string)
    ensures TrimmedFields(Join(TrimmedFields(s), ',')) == TrimmedFields(s)
  {
    CleanGenres(s);
    JoinThenSplitAndTrim(TrimmedFields(s));
  }

  /** The genre loop of createBook and updateBook: nothing when the field
      is empty, otherwise every non-empty piece splitAndTrim returns. The
      field's emptiness check and the non-empty filter change nothing:
      the result is what splitAndTrim alone gives. */
  method ParseGenres(field: string) returns (genres: seq<string>)
    ensures genres == TrimmedFields(field)
  {
    genres := [];
    if field != "" {
      var pieces := SplitAndTrim(field);
      assert forall k :: 0 <= k < |pieces| ==> pieces[k] != "";
      for i := 0 to |pieces|
        invariant genres == pieces[..i]
      {
        assert pieces[..i + 1] == pieces[..i] + [pieces[i]];
        if pieces[i] != "" {
          genres := genres + [pieces[i]];
        }
      }
      assert pieces[..|pieces|] == pieces;
    } else {
      EmptyFieldNoGenres();
    }
  }

  /** An empty genres field stands for no genres. */
  lemma EmptyFieldNoGenres()
    ensures TrimmedFields("") == []
  {
    assert Split("", ',') == [""];
    assert Trims([""]) == [""];
  }
}
