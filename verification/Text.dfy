/** The string operations the CSV code leans on: `str::trim`, `str::split` on a character, and `join`. */
module Text {
  /** `char::is_whitespace`: the White_Space property of the Unicode Character Database. */
  predicate IsSpace(c: char) {
    || '\t' <= c <= '\r' || c == ' ' || c == '\U{85}' || c == '\U{A0}' || c == '\U{1680}'
    || '\U{2000}' <= c <= '\U{200A}' || c == '\U{2028}' || c == '\U{2029}' || c == '\U{202F}'
    || c == '\U{205F}' || c == '\U{3000}'
  }

  predicate Trimmed(s: string) {
    s != "" ==> !IsSpace(s[0]) && !IsSpace(s[|s| - 1])
  }

  function TrimStart(s: string): (t: string)
    ensures t != "" ==> !IsSpace(t[0])
    ensures forall c :: c in t ==> c in s
  {
    if s != "" && IsSpace(s[0]) then TrimStart(s[1..]) else s
  }

  function TrimEnd(s: string): (t: string)
    ensures |t| <= |s|
    ensures t != "" ==> !IsSpace(t[|t| - 1]) && t[0] == s[0]
    ensures forall c :: c in t ==> c in s
  {
    if s != "" && IsSpace(s[|s| - 1]) then TrimEnd(s[..|s| - 1]) else s
  }

  function Trim(s: string): (t: string)
    ensures Trimmed(t)
    ensures forall c :: c in t ==> c in s
  {
    TrimEnd(TrimStart(s))
  }

  lemma TrimLeavesTrimmed(s: string)
    requires Trimmed(s)
    ensures Trim(s) == s
  {
  }

  predicate Without(parts: seq<string>, sep: char) {
    forall k :: 0 <= k < |parts| ==> sep !in parts[k]
  }

  function Split(s: string, sep: char): (parts: seq<string>)
    ensures parts != [] && Without(parts, sep)
  {
    if s == "" then [""]
    else
      var rest := Split(s[1..], sep);
      if s[0] == sep then [""] + rest else [[s[0]] + rest[0]] + rest[1..]
  }

  function Join(parts: seq<string>, sep: char): string {
    if parts == [] then ""
    else if |parts| == 1 then parts[0]
    else parts[0] + [sep] + Join(parts[1..], sep)
  }

  lemma {:induction false} JoinAppend(parts: seq<string>, last: string, sep: char)
    requires parts != []
    ensures Join(parts + [last], sep) == Join(parts, sep) + [sep] + last
  {
    assert (parts + [last])[1..] == parts[1..] + [last];
    if |parts| > 1 {
      JoinAppend(parts[1..], last, sep);
    }
  }

  lemma {:induction false} SplitFirst(first: string, rest: string, sep: char)
    requires sep !in first
    ensures Split(first + [sep] + rest, sep) == [first] + Split(rest, sep)
  {
    var s := first + [sep] + rest;
    if first == "" {
      assert s[1..] == rest;
    } else {
      assert s[1..] == first[1..] + [sep] + rest;
      SplitFirst(first[1..], rest, sep);
      assert first == [first[0]] + first[1..];
      var tail := Split(s[1..], sep);
      assert tail[0] == first[1..] && tail[1..] == Split(rest, sep);
    }
  }

  lemma {:induction false} SplitOne(s: string, sep: char)
    requires sep !in s
    ensures Split(s, sep) == [s]
  {
    if s != "" {
      SplitOne(s[1..], sep);
      assert s == [s[0]] + s[1..];
    }
  }

  /** Splitting undoes joining. */
  lemma {:induction false} SplitUndoesJoin(parts: seq<string>, sep: char)
    requires parts != [] && Without(parts, sep)
    ensures Split(Join(parts, sep), sep) == parts
  {
    if |parts| == 1 {
      SplitOne(parts[0], sep);
    } else {
      SplitFirst(parts[0], Join(parts[1..], sep), sep);
      SplitUndoesJoin(parts[1..], sep);
    }
  }

  /** What may stand between two separators and come back as it was: not blank, not padded, no separator. */
  predicate Clean(s: string, sep: char) { s != "" && Trimmed(s) && sep !in s }

  predicate AllClean(parts: seq<string>, sep: char) {
    forall k :: 0 <= k < |parts| ==> Clean(parts[k], sep)
  }

  function TrimAll(parts: seq<string>, sep: char): (cells: seq<string>)
    requires Without(parts, sep)
    ensures AllClean(cells, sep)
  {
    if parts == [] then []
    else
      var first := Trim(parts[0]);
      (if first != "" then [first] else []) + TrimAll(parts[1..], sep)
  }

  /** `split(sep).map(trim).filter(non-empty)`, the reading of both group paths and tag cells. */
  function Cells(s: string, sep: char): (cells: seq<string>)
    ensures AllClean(cells, sep)
  {
    TrimAll(Split(s, sep), sep)
  }

  lemma {:induction false} TrimAllLeavesClean(parts: seq<string>, sep: char)
    requires Without(parts, sep) && AllClean(parts, sep)
    ensures TrimAll(parts, sep) == parts
  {
    if parts != [] {
      TrimLeavesTrimmed(parts[0]);
      assert AllClean(parts[1..], sep);
      TrimAllLeavesClean(parts[1..], sep);
    }
  }

  ghost predicate Increasing(ks: seq<nat>) { forall i, j :: 0 <= i < j < |ks| ==> ks[i] < ks[j] }

  /** What trimming takes off is blank, and what it leaves has no blanks around it. */
  lemma {:induction false} TrimIsMiddle(s: string) returns (i: nat, j: nat)
    ensures i <= j <= |s| && Trim(s) == s[i..j] && Trimmed(s[i..j])
    ensures forall k :: 0 <= k < |s| && !(i <= k < j) ==> IsSpace(s[k])
  {
    if s != "" && IsSpace(s[0]) {
      i, j := TrimIsMiddle(s[1..]);
      assert s[1..][i..j] == s[i + 1..j + 1];
      forall k | 0 <= k < |s| && !(i + 1 <= k < j + 1) ensures IsSpace(s[k]) {
        if k > 0 { assert s[k] == s[1..][k - 1]; }
      }
      i, j := i + 1, j + 1;
    } else {
      i := 0;
      j := TrimEndIsFront(s);
    }
  }

  lemma {:induction false} TrimEndIsFront(s: string) returns (j: nat)
    ensures j <= |s| && TrimEnd(s) == s[..j] && forall k :: j <= k < |s| ==> IsSpace(s[k])
  {
    j := |s|;
    if s != "" && IsSpace(s[|s| - 1]) {
      j := TrimEndIsFront(s[..|s| - 1]);
      assert s[..|s| - 1][..j] == s[..j];
    }
  }

  /** The parts that are not blank, in order. */
  ghost predicate NonBlank(parts: seq<string>, ks: seq<nat>) {
    Increasing(ks) && forall k :: k in ks <==> 0 <= k < |parts| && Trim(parts[k]) != ""
  }

  /** The cells are these parts, trimmed. */
  ghost predicate PickedFrom(cells: seq<string>, parts: seq<string>, ks: seq<nat>) {
    |ks| == |cells| && forall j :: 0 <= j < |ks| ==> ks[j] < |parts| && cells[j] == Trim(parts[ks[j]])
  }

  /** The cells of a text are its parts, trimmed, in their order, the blank ones left out. */
  lemma {:induction false} CellsAreTrimmedParts(parts: seq<string>, sep: char) returns (ks: seq<nat>)
    requires parts != [] && Without(parts, sep)
    ensures var cells := Cells(Join(parts, sep), sep);
            NonBlank(parts, ks) && PickedFrom(cells, parts, ks)
  {
    SplitUndoesJoin(parts, sep);
    ks := TrimAllPicks(parts, sep);
  }

  lemma NonBlankShifted(parts: seq<string>, rest: seq<nat>, ks: seq<nat>)
    requires parts != [] && NonBlank(parts[1..], rest)
    requires ks == (if Trim(parts[0]) != "" then [0] else []) + seq(|rest|, j requires 0 <= j < |rest| => rest[j] + 1)
    ensures NonBlank(parts, ks)
  {
    var first := if Trim(parts[0]) != "" then [0] else [];
    var moved := seq(|rest|, j requires 0 <= j < |rest| => rest[j] + 1);
    forall k ensures k in moved <==> 1 <= k && k - 1 in rest {
      if 1 <= k && k - 1 in rest {
        var j :| 0 <= j < |rest| && rest[j] == k - 1;
        assert moved[j] == k;
      }
    }
    forall k | 1 <= k < |parts| ensures parts[k] == parts[1..][k - 1] { }
    forall k ensures k in ks <==> k in first || k in moved { }
  }

  lemma PickedShifted(cells: seq<string>, parts: seq<string>, rest: seq<nat>, ks: seq<nat>)
    requires parts != [] && PickedFrom(cells, parts[1..], rest)
    requires ks == (if Trim(parts[0]) != "" then [0] else []) + seq(|rest|, j requires 0 <= j < |rest| => rest[j] + 1)
    ensures PickedFrom((if Trim(parts[0]) != "" then [Trim(parts[0])] else []) + cells, parts, ks)
  {
    forall j | 0 <= j < |rest| ensures parts[1..][rest[j]] == parts[rest[j] + 1] { }
  }

  lemma {:induction false} TrimAllPicks(parts: seq<string>, sep: char) returns (ks: seq<nat>)
    requires Without(parts, sep)
    ensures NonBlank(parts, ks) && PickedFrom(TrimAll(parts, sep), parts, ks)
  {
    ks := [];
    if parts != [] {
      var rest := TrimAllPicks(parts[1..], sep);
      ks := (if Trim(parts[0]) != "" then [0] else []) + seq(|rest|, j requires 0 <= j < |rest| => rest[j] + 1);
      NonBlankShifted(parts, rest, ks);
      PickedShifted(TrimAll(parts[1..], sep), parts, rest, ks);
    }
  }

  /** Any text is its parts, joined. */
  lemma {:induction false} JoinUndoesSplit(s: string, sep: char)
    ensures Join(Split(s, sep), sep) == s
  {
    if s != "" {
      var rest := Split(s[1..], sep);
      JoinUndoesSplit(s[1..], sep);
      if s[0] == sep {
        assert ([""] + rest)[1..] == rest;
      } else {
        assert ([[s[0]] + rest[0]] + rest[1..])[1..] == rest[1..];
      }
    }
  }

  /** Reading a joined list of clean cells gives the list back. */
  lemma CellsOfJoin(parts: seq<string>, sep: char)
    requires AllClean(parts, sep)
    ensures Cells(Join(parts, sep), sep) == parts
  {
    if parts != [] {
      assert Without(parts, sep);
      SplitUndoesJoin(parts, sep);
      TrimAllLeavesClean(parts, sep);
    } else {
      TrimLeavesTrimmed("");
      assert TrimAll([""][1..], sep) == [];
    }
  }

  /** A joined list of clean cells has no blanks around it, so `trim` leaves it alone. */
  lemma {:induction false} JoinIsTrimmed(parts: seq<string>, sep: char)
    requires parts != [] && AllClean(parts, sep)
    ensures Trimmed(Join(parts, sep)) && Join(parts, sep) != ""
  {
    assert Clean(parts[0], sep);
    if |parts| > 1 {
      assert AllClean(parts[1..], sep);
      var rest := Join(parts[1..], sep);
      JoinIsTrimmed(parts[1..], sep);
      var whole := parts[0] + [sep] + rest;
      assert whole[0] == parts[0][0] && whole[|whole| - 1] == rest[|rest| - 1];
    }
  }
}
