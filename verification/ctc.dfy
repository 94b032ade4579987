/** Greedy CTC decoding of a licence-plate reading.

    The recognition network yields one class index per horizontal position;
    decoding keeps the character of each index that differs from the previous
    position's index, and drops the blank class. A blank still becomes the
    previous index, so a blank between two equal characters keeps both.
 */
module Ctc {

  /** The alphabet of the recogniser: digits, upper-case letters, and the blank `-` last. */
  const Chars: string := "0123456789ABCDEFGHIJKLMNOPQRSTUVWXYZ-"

  const BlankChar: char := '-'

  /** Character to position, as a dictionary built by enumerating `cs`; a later
      occurrence of a character overwrites an earlier one. */
  function Enumerate(cs: string): (d: map<char, int>)
    ensures forall c :: c in d ==> 0 <= d[c] < |cs| && cs[d[c]] == c
  {
    if |cs| == 0 then map[]
    else
      var n := |cs| - 1;
      var prefix := Enumerate(cs[..n]);
      assert forall c :: c in prefix ==> cs[prefix[c]] == cs[..n][prefix[c]];
      prefix[cs[n] := n]
  }

  /** The character-to-index table of the alphabet. */
  const CharsDict: map<char, int> := Enumerate(Chars)

  ghost predicate Distinct(cs: string)
  {
    forall i, j :: 0 <= i < j < |cs| ==> cs[i] != cs[j]
  }

  /** For an alphabet without repeats, the enumeration table inverts indexing
      and its keys are exactly the alphabet's characters. */
  lemma {:induction false} EnumerateInverts(cs: string)
    requires Distinct(cs)
    ensures forall i :: 0 <= i < |cs| ==> cs[i] in Enumerate(cs) && Enumerate(cs)[cs[i]] == i
    ensures forall c :: c in Enumerate(cs) <==> c in cs
  {
    if |cs| > 0 {
      var n := |cs| - 1;
      EnumerateInverts(cs[..n]);
      assert forall c :: c in cs <==> c in cs[..n] || c == cs[n];
    }
  }

  /** The alphabet by code point: ten digits from '0', then 26 letters from 'A', then '-'. */
  lemma CharsCodes()
    ensures |Chars| == 37
    ensures forall i :: 0 <= i < |Chars| ==>
              Chars[i] as int == if i < 10 then '0' as int + i
                                 else if i < 36 then 'A' as int + (i - 10)
                                 else BlankChar as int
  {
  }

  /** The alphabet has 37 distinct characters and ends in the blank. */
  lemma CharsShape()
    ensures |Chars| == 37
    ensures Chars[BlankOf(Chars)] == BlankChar
    ensures Distinct(Chars)
  {
    CharsCodes();
    assert Chars[36] as int == BlankChar as int;
  }

  /** The table maps each character of the alphabet back to its index, and holds no other key. */
  lemma CharsTable()
    ensures forall i :: 0 <= i < |Chars| ==> Chars[i] in CharsDict && CharsDict[Chars[i]] == i
    ensures forall c :: c in CharsDict <==> c in Chars
  {
    CharsShape();
    EnumerateInverts(Chars);
  }

  /** The blank is the last entry of an alphabet. */
  function BlankOf(alphabet: string): int
  {
    |alphabet| - 1
  }

  /** The entries of an alphabet that stand for characters: all but the final blank. */
  function Letters(alphabet: string): string
  {
    if |alphabet| == 0 then "" else alphabet[..|alphabet| - 1]
  }

  /** Every index is a class of the alphabet, as an argmax over the class dimension gives. */
  predicate ValidIndices(alphabet: string, xs: seq<int>)
  {
    forall k :: 0 <= k < |xs| ==> 0 <= xs[k] < |alphabet|
  }

  /** Decoding of `xs` over `alphabet` when the index seen just before `xs` was `prev`. */
  function CollapseFrom(alphabet: string, xs: seq<int>, prev: int): (r: string)
    requires ValidIndices(alphabet, xs)
    ensures |r| <= |xs|
  {
    if |xs| == 0 then ""
    else
      var x := xs[0];
      var head := if x != prev && x != BlankOf(alphabet) then [alphabet[x]] else "";
      head + CollapseFrom(alphabet, xs[1..], x)
  }

  /** Every decoded character is a letter of the alphabet: the blank never appears. */
  lemma {:induction false} CollapseLetters(alphabet: string, xs: seq<int>, prev: int)
    requires ValidIndices(alphabet, xs)
    ensures forall k :: 0 <= k < |CollapseFrom(alphabet, xs, prev)| ==> CollapseFrom(alphabet, xs, prev)[k] in Letters(alphabet)
  {
    if |xs| > 0 {
      var x := xs[0];
      CollapseLetters(alphabet, xs[1..], x);
      if x != prev && x != BlankOf(alphabet) {
        assert Letters(alphabet)[x] == alphabet[x];
      }
    }
  }

  /** One turn of the decoding loop: position `i` contributes its character or nothing,
      and becomes the previous index for the rest. */
  lemma CollapseStep(alphabet: string, xs: seq<int>, i: nat, prev: int)
    requires ValidIndices(alphabet, xs) && i < |xs|
    ensures CollapseFrom(alphabet, xs[i..], prev)
         == (if xs[i] != prev && xs[i] != BlankOf(alphabet) then [alphabet[xs[i]]] else "")
            + CollapseFrom(alphabet, xs[i + 1..], xs[i])
  {
    assert xs[i..][1..] == xs[i + 1..];
  }

  /** Decoding from the start, where the previous index is -1 and so matches no class. */
  function Collapse(alphabet: string, xs: seq<int>): (r: string)
    requires ValidIndices(alphabet, xs)
    ensures |r| <= |xs|
    ensures |xs| > 0 && xs[0] != BlankOf(alphabet) ==> |r| > 0 && r[0] == alphabet[xs[0]]
  {
    CollapseFrom(alphabet, xs, -1)
  }

  /** The decoding loop over any alphabet with the blank last: walk the indices, keep a
      character when its index differs from the previous one and is not the blank, and
      remember every index, the blank included, as the previous one. */
  method DecodeWith(alphabet: string, indices: seq<int>) returns (text: string)
    requires ValidIndices(alphabet, indices)
    ensures text == Collapse(alphabet, indices)
    ensures |text| <= |indices|
    ensures |indices| == 0 ==> text == ""
    ensures forall k :: 0 <= k < |text| ==> text[k] in Letters(alphabet)
  {
    text := "";
    var prev := -1;
    var i := 0;
    while i < |indices|
      invariant 0 <= i <= |indices|
      invariant text + CollapseFrom(alphabet, indices[i..], prev) == Collapse(alphabet, indices)
    {
      var idx := indices[i];
      var piece := if idx != prev && idx != BlankOf(alphabet) then [alphabet[idx]] else "";
      CollapseStep(alphabet, indices, i, prev);
      assert text + CollapseFrom(alphabet, indices[i..], prev)
          == (text + piece) + CollapseFrom(alphabet, indices[i + 1..], idx);
      text := text + piece;
      prev := idx;
      i := i + 1;
    }
    assert indices[|indices|..] == [];
    CollapseLetters(alphabet, indices, -1);
  }

  /** Decoding of a plate reading: every character is one of the alphabet's and none is the blank. */
  method DecodeLpr(indices: seq<int>) returns (text: string)
    requires ValidIndices(Chars, indices)
    ensures text == Collapse(Chars, indices)
    ensures |text| <= |indices|
    ensures |indices| == 0 ==> text == ""
    ensures forall k :: 0 <= k < |text| ==> text[k] in Chars && text[k] != BlankChar
  {
    text := DecodeWith(Chars, indices);
    CharsLetters();
  }

  /** The letters of the alphabet are in it, and the blank is not among them. */
  lemma CharsLetters()
    ensures forall c :: c in Letters(Chars) ==> c in Chars && c != BlankChar
  {
    assert Letters(Chars) == "0123456789ABCDEFGHIJKLMNOPQRSTUVWXYZ";
  }

  // ----- Runs: the decoding in terms of maximal blocks of equal indices -----

  /** A block of `length` consecutive positions holding the same index. */
  datatype Run = Run(index: int, length: nat)

  function Repeat(x: int, n: nat): (r: seq<int>)
    ensures |r| == n
    ensures forall k :: 0 <= k < n ==> r[k] == x
  {
    if n == 0 then [] else [x] + Repeat(x, n - 1)
  }

  /** The index sequence a list of runs stands for. */
  function Expand(rs: seq<Run>): seq<int>
  {
    if |rs| == 0 then [] else Repeat(rs[0].index, rs[0].length) + Expand(rs[1..])
  }

  /** Runs are maximal: none is empty and neighbouring runs hold different indices. */
  ghost predicate Maximal(rs: seq<Run>)
  {
    && (forall k :: 0 <= k < |rs| ==> rs[k].length >= 1)
    && (forall k :: 0 < k < |rs| ==> rs[k - 1].index != rs[k].index)
  }

  predicate RunsValid(alphabet: string, rs: seq<Run>)
  {
    forall k :: 0 <= k < |rs| ==> 0 <= rs[k].index < |alphabet|
  }

  /** The characters of the non-blank runs, one per run, in order. */
  function RunLetters(alphabet: string, rs: seq<Run>): string
    requires RunsValid(alphabet, rs)
  {
    if |rs| == 0 then ""
    else
      var x := rs[0].index;
      (if x != BlankOf(alphabet) then [alphabet[x]] else "") + RunLetters(alphabet, rs[1..])
  }

  lemma ExpandCons(r: Run, rs: seq<Run>)
    ensures Expand([r] + rs) == Repeat(r.index, r.length) + Expand(rs)
  {
    assert ([r] + rs)[1..] == rs;
  }

  /** A non-empty run in front of maximal runs whose first index differs stays maximal. */
  lemma MaximalCons(r: Run, rs: seq<Run>)
    requires Maximal(rs) && r.length >= 1
    requires |rs| > 0 ==> r.index != rs[0].index
    ensures Maximal([r] + rs)
  {
    var xs := [r] + rs;
    assert forall k :: 1 <= k < |xs| ==> xs[k] == rs[k - 1];
  }

  /** Dropping the first run keeps the rest maximal. */
  lemma MaximalTail(rs: seq<Run>)
    requires Maximal(rs) && |rs| > 0
    ensures Maximal(rs[1..])
  {
    var tail := rs[1..];
    assert forall k :: 0 <= k < |tail| ==> tail[k] == rs[k + 1];
  }

  /** Splits an index sequence into its maximal runs. */
  function RunsOf(xs: seq<int>): (rs: seq<Run>)
    ensures Expand(rs) == xs
    ensures Maximal(rs)
    ensures |xs| > 0 ==> |rs| > 0 && rs[0].index == xs[0]
  {
    if |xs| == 0 then []
    else
      var x := xs[0];
      var rest := RunsOf(xs[1..]);
      assert xs == [x] + xs[1..];
      if |rest| > 0 && rest[0].index == x then
        var head := Run(x, rest[0].length + 1);
        ExpandCons(head, rest[1..]);
        ExpandCons(rest[0], rest[1..]);
        assert rest == [rest[0]] + rest[1..];
        assert Repeat(x, rest[0].length + 1) == [x] + Repeat(x, rest[0].length);
        MaximalTail(rest);
        MaximalCons(head, rest[1..]);
        [head] + rest[1..]
      else
        ExpandCons(Run(x, 1), rest);
        assert Repeat(x, 1) == [x];
        MaximalCons(Run(x, 1), rest);
        [Run(x, 1)] + rest
  }

  /** Every run's index occurs in the sequence the runs stand for. */
  lemma {:induction false} RunIndicesOccur(rs: seq<Run>)
    requires Maximal(rs)
    ensures forall k :: 0 <= k < |rs| ==> rs[k].index in Expand(rs)
  {
    if |rs| > 0 {
      var tail := rs[1..];
      assert Maximal(tail) by {
        assert forall k :: 0 <= k < |tail| ==> tail[k] == rs[k + 1];
      }
      RunIndicesOccur(tail);
      var head := Repeat(rs[0].index, rs[0].length);
      assert head[0] == rs[0].index;
      forall k | 0 <= k < |rs|
        ensures rs[k].index in Expand(rs)
      {
        if k > 0 {
          assert rs[k] == tail[k - 1];
          assert rs[k].index in Expand(tail);
        }
      }
    }
  }

  /** A run of one index contributes at most its first character, and only when the
      index differs from the one before the run and is not the blank. */
  lemma {:induction false} CollapseRun(alphabet: string, v: int, n: nat, rest: seq<int>, prev: int)
    requires n >= 1 && 0 <= v < |alphabet| && ValidIndices(alphabet, rest)
    ensures ValidIndices(alphabet, Repeat(v, n) + rest)
    ensures CollapseFrom(alphabet, Repeat(v, n) + rest, prev)
         == (if v != prev && v != BlankOf(alphabet) then [alphabet[v]] else "") + CollapseFrom(alphabet, rest, v)
  {
    var xs := Repeat(v, n) + rest;
    assert xs[1..] == Repeat(v, n - 1) + rest;
    if n > 1 {
      CollapseRun(alphabet, v, n - 1, rest, v);
    }
  }

  /** Decoding maximal runs yields one character per non-blank run. */
  lemma {:induction false} CollapseRuns(alphabet: string, rs: seq<Run>, prev: int)
    requires Maximal(rs) && RunsValid(alphabet, rs)
    requires |rs| > 0 ==> rs[0].index != prev
    ensures ValidIndices(alphabet, Expand(rs))
    ensures CollapseFrom(alphabet, Expand(rs), prev) == RunLetters(alphabet, rs)
  {
    if |rs| > 0 {
      CollapseRuns(alphabet, rs[1..], rs[0].index);
      CollapseRun(alphabet, rs[0].index, rs[0].length, Expand(rs[1..]), prev);
    }
  }

  /** The decoded text is the in-order characters of the maximal non-blank runs of the
      input: each run of k >= 1 equal indices contributes exactly one character. */
  lemma DecodeIsRunHeads(alphabet: string, xs: seq<int>)
    requires ValidIndices(alphabet, xs)
    ensures RunsValid(alphabet, RunsOf(xs))
    ensures Collapse(alphabet, xs) == RunLetters(alphabet, RunsOf(xs))
  {
    var rs := RunsOf(xs);
    RunIndicesOccur(rs);
    forall k | 0 <= k < |rs|
      ensures 0 <= rs[k].index < |alphabet|
    {
      var j :| 0 <= j < |xs| && xs[j] == rs[k].index;
    }
    CollapseRuns(alphabet, rs, -1);
  }

  /** A blank between two equal characters keeps both of them. */
  lemma BlankSeparatesRepeats(alphabet: string, a: int)
    requires 0 <= a < BlankOf(alphabet)
    ensures Collapse(alphabet, [a, BlankOf(alphabet), a]) == [alphabet[a], alphabet[a]]
  {
    var b := BlankOf(alphabet);
    assert [a, b, a][1..] == [b, a];
    assert [b, a][1..] == [a];
    assert [a][1..] == [];
    assert CollapseFrom(alphabet, [a], b) == [alphabet[a]];
    assert CollapseFrom(alphabet, [b, a], a) == CollapseFrom(alphabet, [a], b);
  }

  /** Equal neighbours collapse to one character. */
  lemma AdjacentRepeatsMerge(alphabet: string, a: int)
    requires 0 <= a < BlankOf(alphabet)
    ensures Collapse(alphabet, [a, a]) == [alphabet[a]]
  {
    assert [a, a][1..] == [a];
    assert [a][1..] == [];
    assert CollapseFrom(alphabet, [a], a) == "";
  }

  /** The characters of the indices, one for one. */
  function MapChars(alphabet: string, xs: seq<int>): (r: string)
    requires ValidIndices(alphabet, xs)
    ensures |r| == |xs|
    ensures forall k :: 0 <= k < |xs| ==> r[k] == alphabet[xs[k]]
  {
    if |xs| == 0 then "" else [alphabet[xs[0]]] + MapChars(alphabet, xs[1..])
  }

  /** Without blanks and without equal neighbours, decoding maps each index to its character. */
  lemma {:induction false} DirectMapping(alphabet: string, xs: seq<int>, prev: int)
    requires ValidIndices(alphabet, xs)
    requires forall k :: 0 <= k < |xs| ==> xs[k] != BlankOf(alphabet)
    requires forall k :: 0 < k < |xs| ==> xs[k - 1] != xs[k]
    requires |xs| > 0 ==> xs[0] != prev
    ensures CollapseFrom(alphabet, xs, prev) == MapChars(alphabet, xs)
  {
    if |xs| > 0 {
      DirectMapping(alphabet, xs[1..], xs[0]);
    }
  }

  /** From the start of a reading: a blank-free input without equal neighbours decodes to its
      direct character mapping. */
  lemma DecodeDirect(alphabet: string, xs: seq<int>)
    requires ValidIndices(alphabet, xs)
    requires forall k :: 0 <= k < |xs| ==> xs[k] != BlankOf(alphabet)
    requires forall k :: 0 < k < |xs| ==> xs[k - 1] != xs[k]
    ensures Collapse(alphabet, xs) == MapChars(alphabet, xs)
  {
    DirectMapping(alphabet, xs, -1);
  }
}
