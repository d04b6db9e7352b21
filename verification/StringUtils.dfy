/** The two string splitters: one that searches for a delimiter string, one that is a state machine. */
module StringUtils {
  import opened Sequences

  predicate Matches(s: string, d: string, i: int) {
    0 <= i && i + |d| <= |s| && s[i..i + |d|] == d
  }

  /** `std::string::find`: the first match at or after `from`, or -1. */
  function Find(s: string, d: string, from: nat): (r: int)
    ensures r == -1 || (from <= r && r + |d| <= |s|)
    decreases |s| - from
  {
    if from > |s| then -1
    else if Matches(s, d, from) then from
    else Find(s, d, from + 1)
  }

  lemma {:induction false} FindIsFirst(s: string, d: string, from: nat)
    ensures
      var r := Find(s, d, from);
      && (r != -1 ==> Matches(s, d, r))
      && forall i :: from <= i && (r == -1 || i < r) ==> !Matches(s, d, i)
    decreases |s| - from
  {
    if from <= |s| && !Matches(s, d, from) {
      FindIsFirst(s, d, from + 1);
    }
  }

  /** The pieces from `last` on. A last piece is dropped if it is empty. */
  function SplitFrom(s: string, d: string, last: nat): seq<string>
    requires |d| > 0 && last <= |s|
    decreases |s| - last
  {
    var next := Find(s, d, last);
    if next == -1 then if last < |s| then [s[last..]] else []
    else [s[last..next]] + SplitFrom(s, d, next + |d|)
  }

  function Split(s: string, d: string): seq<string> {
    if |d| == 0 then [] else SplitFrom(s, d, 0)
  }

  function Join(pieces: seq<string>, d: string): string {
    if |pieces| == 0 then ""
    else if |pieces| == 1 then pieces[0]
    else pieces[0] + d + Join(pieces[1..], d)
  }

  // ---------------------------------------------------------------------------------------------
  // The two algorithms
  // ---------------------------------------------------------------------------------------------

  method SplitString(s: string, delimiter: string) returns (result: seq<string>)
    ensures result == Split(s, delimiter)
  {
    result := [];
    if |delimiter| == 0 {
      return;
    }
    hide SplitFrom, Find, Matches;
    var last: nat := 0;
    var next := Find(s, delimiter, last);
    while next != -1
      invariant last <= |s| && next == Find(s, delimiter, last)
      invariant result + SplitFrom(s, delimiter, last) == SplitFrom(s, delimiter, 0)
      decreases |s| - last
    {
      result := PushPiece(result, s, delimiter, last, next);
      last := next + |delimiter|;
      next := Find(s, delimiter, last);
    }
    result := PushLast(result, s, delimiter, last);
  }

  method PushLast(pieces: seq<string>, s: string, d: string, last: nat) returns (r: seq<string>)
    requires |d| > 0 && last <= |s| && Find(s, d, last) == -1
    ensures r == pieces + SplitFrom(s, d, last)
  {
    SplitStep(s, d, last);
    hide SplitFrom, Find, Matches;
    r := pieces;
    if last < |s| {
      r := r + [s[last..]];
    }
  }

  /** One piece, up to the delimiter found at `next`. */
  method PushPiece(pieces: seq<string>, s: string, d: string, last: nat, next: nat) returns (r: seq<string>)
    requires |d| > 0 && last <= |s| && next == Find(s, d, last)
    ensures last < next + |d| <= |s|
    ensures r + SplitFrom(s, d, next + |d|) == pieces + SplitFrom(s, d, last)
  {
    SplitStep(s, d, last);
    hide SplitFrom, Find, Matches;
    Assoc3(pieces, [s[last..next]], SplitFrom(s, d, next + |d|));
    if next > last {
      r := pieces + [s[last..next]];
    } else {
      assert s[last..next] == "";
      r := pieces + [""];
    }
  }

  lemma SplitStep(s: string, d: string, last: nat)
    requires |d| > 0 && last <= |s|
    ensures
      var next := Find(s, d, last);
      if next == -1 then SplitFrom(s, d, last) == if last < |s| then [s[last..]] else []
      else next + |d| <= |s| && SplitFrom(s, d, last) == [s[last..next]] + SplitFrom(s, d, next + |d|)
  {
  }

  datatype Fsm = Normal | Delimiter

  /** The transition into `Delimiter` does not advance; the pair of position and state does decrease. */
  method SplitStringWithFSM(s: string, delimiter: char) returns (result: seq<string>)
    ensures result == Split(s, [delimiter])
  {
    hide SplitFrom;
    var state := Normal;
    var tmp := "";
    var pos: nat := 0;
    result := [];
    while pos < |s|
      invariant |tmp| <= pos <= |s| && tmp == s[pos - |tmp|..pos] && delimiter !in tmp
      invariant state == Delimiter ==> pos < |s| && s[pos] == delimiter
      invariant result + SplitFrom(s, [delimiter], pos - |tmp|) == SplitFrom(s, [delimiter], 0)
      decreases |s| - pos, if state == Normal then 1 else 0
    {
      if state == Normal {
        if s[pos] == delimiter {
          state := Delimiter;
          continue;
        }
        tmp := tmp + [s[pos]];
        pos := pos + 1;
      } else {
        SplitAt(s, delimiter, pos - |tmp|, pos);
        ghost var rest := SplitFrom(s, [delimiter], pos + 1);
        assert result + ([tmp] + rest) == result + [tmp] + rest;
        result := result + [tmp];
        tmp := "";
        state := Normal;
        pos := pos + 1;
      }
    }
    assert tmp == s[pos - |tmp|..];
    SplitEnd(s, delimiter, pos - |tmp|);
    if |tmp| > 0 {
      result := result + [tmp];
    }
  }

  lemma OneMatch(s: string, c: char, i: int)
    ensures Matches(s, [c], i) <==> 0 <= i < |s| && s[i] == c
  {
    if 0 <= i < |s| {
      assert s[i..i + 1] == [s[i]];
    }
  }

  lemma Absent(s: string, c: char, from: nat, pos: nat, i: nat)
    requires from <= i < pos <= |s| && c !in s[from..pos]
    ensures s[i] != c
  {
    assert s[from..pos][i - from] == s[i];
  }

  lemma FirstAt(s: string, c: char, from: nat, pos: nat)
    requires from <= pos < |s| && c !in s[from..pos] && s[pos] == c
    ensures Find(s, [c], from) == pos
  {
    OneMatch(s, c, pos);
    FindIsFirst(s, [c], from);
    var r := Find(s, [c], from);
    OneMatch(s, c, r);
    if from <= r < pos {
      Absent(s, c, from, pos, r);
    }
  }

  lemma NoneLeft(s: string, c: char, from: nat)
    requires from <= |s| && c !in s[from..]
    ensures Find(s, [c], from) == -1
  {
    FindIsFirst(s, [c], from);
    OneMatch(s, c, Find(s, [c], from));
  }

  lemma SplitAt(s: string, c: char, from: nat, pos: nat)
    requires from <= pos < |s| && c !in s[from..pos] && s[pos] == c
    ensures SplitFrom(s, [c], from) == [s[from..pos]] + SplitFrom(s, [c], pos + 1)
  {
    FirstAt(s, c, from, pos);
  }

  lemma SplitEnd(s: string, c: char, from: nat)
    requires from <= |s| && c !in s[from..]
    ensures SplitFrom(s, [c], from) == if from < |s| then [s[from..]] else []
  {
    NoneLeft(s, c, from);
  }

  // ---------------------------------------------------------------------------------------------
  // What splitting means
  // ---------------------------------------------------------------------------------------------

  /** The scan for delimiters from `last` on ends with one at the very end. */
  predicate EndsScan(s: string, d: string, last: nat)
    requires |d| > 0 && last <= |s|
    decreases |s| - last
  {
    var next := Find(s, d, last);
    next != -1 && (next + |d| == |s| || EndsScan(s, d, next + |d|))
  }

  lemma {:induction false} JoinFrom(s: string, d: string, last: nat)
    requires |d| > 0 && last <= |s|
    ensures Restored(s, d, last)
    decreases |s| - last
  {
    hide Restored, SplitFrom, Matches;
    var next := Find(s, d, last);
    if next == -1 {
      RestoredEnd(s, d, last);
    } else {
      JoinFrom(s, d, next + |d|);
      if next + |d| == |s| {
        RestoredLast(s, d, last);
      } else {
        RestoredStep(s, d, last);
      }
    }
  }

  /** Joining the pieces from `last` on gives the rest of the string, up to a delimiter at its end. */
  predicate Restored(s: string, d: string, last: nat)
    requires |d| > 0 && last <= |s|
  {
    Join(SplitFrom(s, d, last), d) + EndOf(s, d, last) == s[last..]
  }

  function EndOf(s: string, d: string, last: nat): string
    requires |d| > 0 && last <= |s|
  {
    if EndsScan(s, d, last) then d else ""
  }

  lemma RestoredEnd(s: string, d: string, last: nat)
    requires |d| > 0 && last <= |s| && Find(s, d, last) == -1
    ensures Restored(s, d, last)
  {
    hide Matches, Find;
    SplitStep(s, d, last);
    assert !EndsScan(s, d, last);
  }

  /** The last delimiter stands at the end: it is not restored. */
  lemma RestoredLast(s: string, d: string, last: nat)
    requires |d| > 0 && last <= |s| && Find(s, d, last) != -1 && Find(s, d, last) + |d| == |s|
    ensures Restored(s, d, last)
  {
    hide SplitFrom, Find, Matches, EndsScan, Join;
    var next := Find(s, d, last);
    FindIsFirst(s, d, last);
    SplitStep(s, d, last);
    NotAtEnd(s, d, |s|);
    JoinCons(s[last..next], SplitFrom(s, d, |s|), d);
    EndsStep(s, d, last);
    Around(s, d, last, next);
    assert s[|s|..] == "";
  }

  lemma RestoredStep(s: string, d: string, last: nat)
    requires |d| > 0 && last <= |s| && Find(s, d, last) != -1
    requires Find(s, d, last) + |d| < |s| && Restored(s, d, Find(s, d, last) + |d|)
    ensures Restored(s, d, last)
  {
    hide SplitFrom, Find, Matches, EndsScan, Join;
    var next := Find(s, d, last);
    var after := next + |d|;
    FindIsFirst(s, d, last);
    SplitStep(s, d, last);
    NotAtEnd(s, d, after);
    JoinCons(s[last..next], SplitFrom(s, d, after), d);
    EndsStep(s, d, last);
    Around(s, d, last, next);
    Assoc4(s[last..next], d, Join(SplitFrom(s, d, after), d), EndOf(s, d, after));
  }

  lemma EndsStep(s: string, d: string, last: nat)
    requires |d| > 0 && last <= |s| && Find(s, d, last) != -1
    ensures var after := Find(s, d, last) + |d|; EndsScan(s, d, last) == (after == |s| || EndsScan(s, d, after))
  {
  }

  lemma JoinCons(piece: string, rest: seq<string>, d: string)
    ensures Join([piece] + rest, d) == if |rest| == 0 then piece else piece + d + Join(rest, d)
  {
    assert ([piece] + rest)[1..] == rest;
  }

  lemma Around(s: string, d: string, last: nat, next: nat)
    requires last <= next && Matches(s, d, next)
    ensures s[last..] == s[last..next] + d + s[next + |d|..]
  {
  }

  lemma NotAtEnd(s: string, d: string, last: nat)
    requires |d| > 0 && last <= |s|
    ensures |SplitFrom(s, d, last)| > 0 <==> last < |s|
  {
  }

  /** Joining the pieces restores the string, up to one delimiter at its end. */
  lemma JoinRestores(s: string, d: string)
    requires |d| > 0
    ensures Join(Split(s, d), d) + (if EndsScan(s, d, 0) then d else "") == s
  {
    JoinFrom(s, d, 0);
    assert s[0..] == s;
  }

  lemma {:induction false} ScanEndsIff(s: string, c: char, last: nat)
    requires last <= |s|
    ensures EndsScan(s, [c], last) <==> last < |s| && s[|s| - 1] == c
    decreases |s| - last
  {
    var next := Find(s, [c], last);
    if next != -1 {
      ScanEndsIff(s, c, next + 1);
      FindIsFirst(s, [c], last);
      OneMatch(s, c, next);
    } else if last < |s| {
      FindIsFirst(s, [c], last);
      OneMatch(s, c, |s| - 1);
    }
  }

  /** For a single character: restored exactly, unless the string ends in the delimiter, which is then lost. */
  lemma JoinRestoresIff(s: string, c: char)
    ensures Join(Split(s, [c]), [c]) == s <==> |s| == 0 || s[|s| - 1] != c
    ensures |s| > 0 && s[|s| - 1] == c ==> Join(Split(s, [c]), [c]) == s[..|s| - 1]
  {
    JoinRestores(s, [c]);
    ScanEndsIff(s, c, 0);
  }

  /** No piece holds the delimiter, however long that is. */
  lemma {:induction false} PiecesHoldNone(s: string, d: string, last: nat)
    requires |d| > 0 && last <= |s|
    ensures forall p :: p in SplitFrom(s, d, last) ==> Find(p, d, 0) == -1
    decreases |s| - last
  {
    var next := Find(s, d, last);
    SplitStep(s, d, last);
    FindIsFirst(s, d, last);
    if next == -1 {
      hide SplitFrom, Find, Matches;
      PartHoldsNone(s, d, last, |s|);
      assert s[last..|s|] == s[last..];
    } else {
      PiecesHoldNone(s, d, next + |d|);
      hide SplitFrom, Find, Matches;
      PartHoldsNone(s, d, last, next);
    }
  }

  lemma PartHoldsNone(s: string, d: string, last: nat, next: nat)
    requires |d| > 0 && last <= next <= |s|
    requires forall i :: last <= i < next ==> !Matches(s, d, i)
    ensures Find(s[last..next], d, 0) == -1
  {
    hide Find, Matches;
    var part := s[last..next];
    FindIsFirst(part, d, 0);
    if Find(part, d, 0) != -1 {
      MatchShifts(s, d, last, next, Find(part, d, 0));
    }
  }

  lemma MatchShifts(s: string, d: string, from: nat, to: nat, i: int)
    requires |d| > 0 && from <= to <= |s| && Matches(s[from..to], d, i)
    ensures from <= from + i < to && Matches(s, d, from + i)
  {
    SliceOfSlice(s, from, to, i, i + |d|);
  }

  predicate FreeOf(pieces: seq<string>, c: char) {
    forall p :: p in pieces ==> c !in p
  }

  lemma {:induction false} PiecesAreFree(s: string, c: char, last: nat)
    requires last <= |s|
    ensures FreeOf(SplitFrom(s, [c], last), c)
    decreases |s| - last
  {
    var next := Find(s, [c], last);
    var end := if next == -1 then |s| else next;
    if c in s[last..end] {
      var i :| 0 <= i < end - last && s[last..end][i] == c;
      FindIsFirst(s, [c], last);
      OneMatch(s, c, last + i);
    }
    if next != -1 {
      PiecesAreFree(s, c, next + 1);
    }
  }

  /** Splitting undoes joining: pieces free of the delimiter come back, unless the last one is empty. */
  lemma {:induction false} SplitJoinIff(pieces: seq<string>, c: char)
    requires FreeOf(pieces, c)
    ensures Split(Join(pieces, [c]), [c]) == pieces <==> |pieces| == 0 || |pieces[|pieces| - 1]| > 0
  {
    var s := Join(pieces, [c]);
    if |pieces| == 0 {
      NoneLeft(s, c, 0);
    } else if |pieces[|pieces| - 1]| > 0 {
      SplitJoined("", pieces, c);
      assert "" + s == s;
    } else {
      JoinRestoresIff(s, c);
      if Split(s, [c]) == pieces {
        EndsWithPiece(pieces, c);
      }
    }
  }

  lemma {:induction false} SplitJoined(before: string, pieces: seq<string>, c: char)
    requires FreeOf(pieces, c) && |pieces| > 0 && |pieces[|pieces| - 1]| > 0
    ensures SplitFrom(before + Join(pieces, [c]), [c], |before|) == pieces
    decreases |pieces|
  {
    var s := before + Join(pieces, [c]);
    var head := pieces[0];
    if |pieces| == 1 {
      assert s[|before|..] == head;
      SplitEnd(s, c, |before|);
    } else {
      hide SplitFrom, Find, Matches, Join, FreeOf;
      FreeTail(pieces, c);
      var rest := Join(pieces[1..], [c]);
      JoinCons(head, pieces[1..], [c]);
      assert [head] + pieces[1..] == pieces;
      SplitLayer(before, head, c, rest);
      SplitJoined(before + head + [c], pieces[1..], c);
    }
  }

  lemma FreeTail(pieces: seq<string>, c: char)
    requires FreeOf(pieces, c) && |pieces| > 0
    ensures c !in pieces[0] && FreeOf(pieces[1..], c)
  {
  }

  lemma SplitLayer(before: string, head: string, c: char, rest: string)
    requires c !in head
    ensures
      SplitFrom(before + (head + [c] + rest), [c], |before|)
      == [head] + SplitFrom(before + head + [c] + rest, [c], |before + head + [c]|)
  {
    hide SplitFrom, Find, Matches;
    Layers(before, head, c, rest);
    SplitAt(before + head + [c] + rest, c, |before|, |before| + |head|);
  }

  lemma Layers(before: string, head: string, c: char, rest: string)
    ensures
      var s := before + (head + [c] + rest);
      && s == before + head + [c] + rest
      && s[|before|..|before| + |head|] == head && s[|before| + |head|] == c
  {
  }

  /** With an empty last piece, the joined string is empty or ends in the delimiter. */
  lemma {:induction false} EndsWithPiece(pieces: seq<string>, c: char)
    requires |pieces| > 0 && |pieces[|pieces| - 1]| == 0
    ensures var s := Join(pieces, [c]); if |pieces| == 1 then s == "" else |s| > 0 && s[|s| - 1] == c
    decreases |pieces|
  {
    if |pieces| > 1 {
      EndsWithPiece(pieces[1..], c);
    }
  }
}
