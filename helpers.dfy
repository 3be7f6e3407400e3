/**
 * The small helpers of the game: the drawing tag of a segment (codeTag),
 * the editing of a grid row (ajoute_indice), the order of the saved grids
 * (trieLstGrille) and the text of the playing time (calcule_temps).
 */
module Helpers {
  import opened Wrappers
  import opened Lattice

  ghost predicate Unique<T>(xs: seq<T>)
  {
    forall a, b :: 0 <= a < b < |xs| ==> xs[a] != xs[b]
  }

  // ---------------------------------------------------------------------
  // Decimal digits.

  /** The decimal digit of 0 <= n <= 9, as str() writes it. */
  function DigitChar(n: int): (c: char)
    requires 0 <= n <= 9
    ensures c as int - '0' as int == n
  {
    ('0' as int + n) as char
  }

  predicate IsDigit(c: char)
  {
    '0' <= c <= '9'
  }

  predicate AllDigits(s: string)
  {
    forall k :: 0 <= k < |s| ==> IsDigit(s[k])
  }

  /** The value of a string of decimal digits. */
  function DigitsValue(s: string): nat
    requires AllDigits(s)
  {
    if s == [] then 0
    else DigitsValue(s[..|s| - 1]) * 10 + (s[|s| - 1] as int - '0' as int)
  }

  /** str(n) for n >= 0: the decimal digits of n, without leading zeros. */
  function DecimalString(n: nat): (s: string)
    ensures |s| >= 1 && AllDigits(s) && DigitsValue(s) == n
    ensures n < 10 <==> |s| == 1
    ensures (|s| > 1 ==> s[0] != '0')
  {
    if n < 10 then [DigitChar(n)]
    else
      var s := DecimalString(n / 10) + [DigitChar(n % 10)];
      assert s[..|s| - 1] == DecimalString(n / 10);
      s
  }

  /** A leading '0' does not change the value of a digit string. */
  lemma {:induction false} LeadingZero(s: string)
    requires AllDigits(s)
    ensures AllDigits("0" + s) && DigitsValue("0" + s) == DigitsValue(s)
  {
    if s != [] {
      assert ("0" + s)[..|"0" + s| - 1] == "0" + s[..|s| - 1];
      LeadingZero(s[..|s| - 1]);
    }
  }

  // ---------------------------------------------------------------------
  // codeTag

  /** chr(ord('@') + c): '@' for 0, 'A' for 1, and so on. */
  function CodeChar(c: int): char
    requires 0 <= c < 0xD800 - 64
  {
    (64 + c) as char
  }

  /** The coordinates codeTag can write as characters. */
  predicate Taggable(s: Seg)
  {
    0 <= s.p.row < 0xD800 - 64 && 0 <= s.p.col < 0xD800 - 64 &&
    0 <= s.q.row < 0xD800 - 64 && 0 <= s.q.col < 0xD800 - 64
  }

  /**
   * codeTag: one character per coordinate, in the order row and column of
   * the first end, then of the second end.
   */
  function CodeTag(s: Seg): (tag: string)
    requires Taggable(s)
    ensures |tag| == 4 && forall k :: 0 <= k < 4 ==> '@' <= tag[k]
  {
    [CodeChar(s.p.row), CodeChar(s.p.col), CodeChar(s.q.row), CodeChar(s.q.col)]
  }

  /** Reads a tag back into the segment it was made from. */
  function DecodeTag(tag: string): (s: Option<Seg>)
    ensures s.Some? <==> |tag| == 4
  {
    if |tag| != 4 then None
    else Some(Seg(Point(tag[0] as int - 64, tag[1] as int - 64), Point(tag[2] as int - 64, tag[3] as int - 64)))
  }

  /** The tag determines the segment: decoding it gives the segment back. */
  lemma TagRoundTrip(s: Seg)
    requires Taggable(s)
    ensures DecodeTag(CodeTag(s)) == Some(s)
  {
  }

  /** So two different segments never share a tag (fltk.efface(tag) erases one segment only). */
  lemma TagInjective(s: Seg, t: Seg)
    requires Taggable(s) && Taggable(t) && CodeTag(s) == CodeTag(t)
    ensures s == t
  {
    TagRoundTrip(s);
    TagRoundTrip(t);
  }

  /** The two examples of the documentation. */
  lemma TagExamples()
    ensures CodeTag(Seg(Point(0, 0), Point(0, 1))) == "@@@A"
    ensures CodeTag(Seg(Point(1, 2), Point(2, 2))) == "ABBB"
  {
  }

  // ---------------------------------------------------------------------
  // ajoute_indice

  /**
   * The row with character j replaced by the string ajouter, the way
   * `list(row)`, an item assignment and `"".join` do it.
   */
  function ReplaceAt(row: string, j: nat, ajouter: string): (r: string)
    requires j < |row|
    ensures |r| == |row| - 1 + |ajouter|
    ensures r[..j] == row[..j]
    ensures r[j..j + |ajouter|] == ajouter
    ensures r[j + |ajouter|..] == row[j + 1..]
  {
    var r := row[..j] + ajouter + row[j + 1..];
    assert r[..j] == row[..j];
    assert r[j..j + |ajouter|] == ajouter;
    assert r[j + |ajouter|..] == row[j + 1..];
    r
  }

  /** With a one-character clue, only character j of the row changes. */
  lemma ReplaceOneChar(row: string, j: nat, c: char)
    requires j < |row|
    ensures |ReplaceAt(row, j, [c])| == |row|
    ensures forall k :: 0 <= k < |row| ==> ReplaceAt(row, j, [c])[k] == if k == j then c else row[k]
  {
    var r := ReplaceAt(row, j, [c]);
    forall k | 0 <= k < |row|
      ensures r[k] == if k == j then c else row[k]
    {
      if k < j {
        assert r[k] == r[..j][k];
      } else if k == j {
        assert r[k] == r[j..j + 1][0];
      } else {
        assert r[k] == r[j + 1..][k - j - 1];
      }
    }
  }

  /** The example of the documentation: '0' at (0, 0) of ['__', '__']. */
  lemma ReplaceExample()
    ensures ReplaceAt("__", 0, "0") == "0_"
  {
  }

  /** ajoute_indice: overwrites row i of the grid in place; the other rows are untouched. */
  method AjouteIndice(grille: array<string>, ajouter: string, i: nat, j: nat)
    requires i < grille.Length && j < |grille[i]|
    modifies grille
    ensures grille[i] == ReplaceAt(old(grille[i]), j, ajouter)
    ensures forall k :: 0 <= k < grille.Length && k != i ==> grille[k] == old(grille[k])
  {
    var row := grille[i];
    grille[i] := row[..j] + ajouter + row[j + 1..];
  }

  // ---------------------------------------------------------------------
  // trieLstGrille

  /** The saved game in progress, always listed first. */
  const Resume: string := "reprendre-grille.txt"

  /** No `.txt` anywhere in s: not at its start, and none in the rest. */
  predicate NoTxt(s: string)
    decreases |s|
  {
    s == [] || (!(|s| >= 4 && s[..4] == ".txt") && NoTxt(s[1..]))
  }

  /** The text `.replace('.txt', '')` leaves: every `.txt`, left to right, removed. */
  function RemoveTxt(s: string): (r: string)
    ensures |r| <= |s|
  {
    if |s| >= 4 && s[..4] == ".txt" then RemoveTxt(s[4..])
    else if s == [] then []
    else [s[0]] + RemoveTxt(s[1..])
  }

  /** A name without `.txt` comes through the replacement unchanged. */
  lemma {:induction false} RemoveTxtPlain(s: string)
    requires NoTxt(s)
    ensures RemoveTxt(s) == s
    decreases |s|
  {
    if s != [] {
      RemoveTxtPlain(s[1..]);
    }
  }

  /** The number of a grid file: `int(name[6:].replace('.txt', ''))`, on digits only. */
  function Number(name: string): (r: Option<nat>)
    ensures r.Some? ==> var t := RemoveTxt(if |name| >= 6 then name[6..] else ""); AllDigits(t) && r.value == DigitsValue(t)
  {
    var t := RemoveTxt(if |name| >= 6 then name[6..] else "");
    if |t| > 0 && AllDigits(t) then Some(DigitsValue(t)) else None
  }

  predicate Numbered(name: string)
  {
    Number(name).Some?
  }

  /** Anything that is neither the saved game nor a numbered grid. */
  predicate Other(name: string)
  {
    !Numbered(name) && name != Resume
  }

  /** A text that starts with neither '.' nor a digit keeps its first character and is no number. */
  lemma NotNumberText(s: string)
    requires |s| > 0 && s[0] != '.' && !IsDigit(s[0])
    ensures |RemoveTxt(s)| > 0 && RemoveTxt(s)[0] == s[0]
    ensures !AllDigits(RemoveTxt(s))
  {
  }

  lemma ResumeNotNumbered()
    ensures !Numbered(Resume)
  {
    NotNumberText(Resume[6..]);
  }

  /** The keys of grilleDict: the numbered names, each once, in the order first met. */
  function NumberedNames(gs: seq<string>): (r: seq<string>)
    ensures Unique(r)
    ensures forall x :: x in r <==> x in gs && Numbered(x)
  {
    if gs == [] then []
    else
      var prev := NumberedNames(gs[..|gs| - 1]);
      var x := gs[|gs| - 1];
      assert gs == gs[..|gs| - 1] + [x];
      if Numbered(x) && x !in prev then prev + [x] else prev
  }

  ghost predicate SortedByNumber(xs: seq<string>)
  {
    forall a, b :: 0 <= a < b < |xs| && Numbered(xs[a]) && Numbered(xs[b]) ==>
      Number(xs[a]).value <= Number(xs[b]).value
  }

  /** Puts the numbered name x after every name of xs whose number is not above its own. */
  function Insert(xs: seq<string>, x: string): (r: seq<string>)
    requires Numbered(x) && forall k :: 0 <= k < |xs| ==> Numbered(xs[k])
    ensures |r| == |xs| + 1 && forall k :: 0 <= k < |r| ==> Numbered(r[k])
    ensures forall y :: y in r <==> y in xs || y == x
  {
    if xs == [] then [x]
    else
      var last := xs[|xs| - 1];
      assert Numbered(last);
      if Number(last).value <= Number(x).value then xs + [x]
      else
        assert xs == xs[..|xs| - 1] + [last];
        Insert(xs[..|xs| - 1], x) + [last]
  }

  lemma {:induction false} InsertUnique(xs: seq<string>, x: string)
    requires Numbered(x) && forall k :: 0 <= k < |xs| ==> Numbered(xs[k])
    requires Unique(xs) && x !in xs
    ensures Unique(Insert(xs, x))
  {
    if xs != [] && Number(xs[|xs| - 1]).value > Number(x).value {
      var last := xs[|xs| - 1];
      var init := xs[..|xs| - 1];
      assert xs == init + [last];
      assert Unique(init) && last !in init;
      InsertUnique(init, x);
      assert last !in Insert(init, x);
    }
  }

  /** Dropping the last name keeps a sorted list sorted. */
  lemma SortedInit(xs: seq<string>)
    requires xs != [] && SortedByNumber(xs)
    ensures SortedByNumber(xs[..|xs| - 1])
  {
    var init := xs[..|xs| - 1];
    forall a, b | 0 <= a < b < |init| && Numbered(init[a]) && Numbered(init[b])
      ensures Number(init[a]).value <= Number(init[b]).value
    {
      assert init[a] == xs[a] && init[b] == xs[b];
    }
  }

  /** A name whose number is at least every other one can go last. */
  lemma SortedSnoc(mid: seq<string>, last: string)
    requires SortedByNumber(mid) && Numbered(last)
    requires forall y :: y in mid && Numbered(y) ==> Number(y).value <= Number(last).value
    ensures SortedByNumber(mid + [last])
  {
    var r := mid + [last];
    forall a, b | 0 <= a < b < |r| && Numbered(r[a]) && Numbered(r[b])
      ensures Number(r[a]).value <= Number(r[b]).value
    {
      assert r[a] == mid[a] && r[a] in mid;
      if b < |mid| {
        assert r[b] == mid[b];
      }
    }
  }

  /** In a sorted list, the last name has the largest number. */
  lemma LastIsLargest(xs: seq<string>)
    requires xs != [] && forall k :: 0 <= k < |xs| ==> Numbered(xs[k])
    requires SortedByNumber(xs)
    ensures forall y :: y in xs[..|xs| - 1] ==> Numbered(y) && Number(y).value <= Number(xs[|xs| - 1]).value
  {
    forall y | y in xs[..|xs| - 1]
      ensures Numbered(y) && Number(y).value <= Number(xs[|xs| - 1]).value
    {
      var k :| 0 <= k < |xs| - 1 && xs[..|xs| - 1][k] == y;
      assert xs[k] == y;
    }
  }

  lemma {:induction false} InsertSorted(xs: seq<string>, x: string)
    requires Numbered(x) && forall k :: 0 <= k < |xs| ==> Numbered(xs[k])
    requires SortedByNumber(xs)
    ensures SortedByNumber(Insert(xs, x))
  {
    if xs != [] && Number(xs[|xs| - 1]).value > Number(x).value {
      var last := xs[|xs| - 1];
      var init := xs[..|xs| - 1];
      assert xs == init + [last];
      SortedInit(xs);
      InsertSorted(init, x);
      LastIsLargest(xs);
      SortedSnoc(Insert(init, x), last);
    }
  }

  /** `sorted(grilleDict.items(), key=number)`: a sort of the names by their number. */
  function SortByNumber(xs: seq<string>): (r: seq<string>)
    requires forall k :: 0 <= k < |xs| ==> Numbered(xs[k])
    ensures |r| == |xs| && forall k :: 0 <= k < |r| ==> Numbered(r[k])
    ensures forall y :: y in r <==> y in xs
  {
    if xs == [] then []
    else
      assert xs == xs[..|xs| - 1] + [xs[|xs| - 1]];
      Insert(SortByNumber(xs[..|xs| - 1]), xs[|xs| - 1])
  }

  /** The sort keeps the names distinct and puts them in order of their numbers. */
  lemma {:induction false} SortByNumberSorted(xs: seq<string>)
    requires forall k :: 0 <= k < |xs| ==> Numbered(xs[k])
    ensures SortedByNumber(SortByNumber(xs))
    ensures Unique(xs) ==> Unique(SortByNumber(xs))
  {
    if xs != [] {
      var init := xs[..|xs| - 1];
      var x := xs[|xs| - 1];
      assert xs == init + [x];
      SortByNumberSorted(init);
      InsertSorted(SortByNumber(init), x);
      if Unique(xs) {
        assert Unique(init) && x !in init;
        InsertUnique(SortByNumber(init), x);
      }
    }
  }

  /** The final loop: every name of gs not listed yet is appended, in the order of gs. */
  function AppendMissing(lst: seq<string>, gs: seq<string>): (r: seq<string>)
    ensures lst <= r
    ensures forall y :: y in r <==> y in lst || y in gs
    ensures forall k :: |lst| <= k < |r| ==> r[k] !in lst
    ensures Unique(lst) ==> Unique(r)
    decreases |gs|
  {
    if gs == [] then lst
    else if gs[0] in lst then AppendMissing(lst, gs[1..])
    else
      var r := AppendMissing(lst + [gs[0]], gs[1..]);
      assert forall k :: |lst| < k < |r| ==> r[k] !in lst + [gs[0]];
      r
  }

  /**
   * The dict dico before the final loop, for a saved-game name `first` that
   * is not itself numbered: `first` when listed, then the numbered names
   * sorted.
   */
  function ListedFrom(grilles: seq<string>, first: string): seq<string>
  {
    (if first in grilles then [first] else []) + SortByNumber(NumberedNames(grilles))
  }

  /** trieLstGrille, for the saved-game name `first`. */
  function TrieFrom(grilles: seq<string>, first: string): (r: seq<string>)
    ensures forall x :: x in r <==> x in grilles
  {
    AppendMissing(ListedFrom(grilles, first), grilles)
  }

  /** trieLstGrille: the dict's keys, then every other name in the order of the listing. */
  function TrieLstGrille(grilles: seq<string>): (r: seq<string>)
    ensures forall x :: x in r <==> x in grilles
  {
    TrieFrom(grilles, Resume)
  }

  lemma SortedNamesFacts(grilles: seq<string>, first: string)
    requires !Numbered(first)
    ensures Unique(SortByNumber(NumberedNames(grilles)))
    ensures SortedByNumber(SortByNumber(NumberedNames(grilles)))
    ensures forall k :: 0 <= k < |SortByNumber(NumberedNames(grilles))| ==>
              SortByNumber(NumberedNames(grilles))[k] != first
  {
    var ns := NumberedNames(grilles);
    assert forall k :: 0 <= k < |ns| ==> ns[k] in ns;
    SortByNumberSorted(ns);
  }

  /** A name put before names that differ from it keeps the names unique. */
  lemma HeadUnique(head: seq<string>, sorted: seq<string>, first: string)
    requires |head| <= 1 && forall k :: 0 <= k < |head| ==> head[k] == first
    requires Unique(sorted) && forall k :: 0 <= k < |sorted| ==> sorted[k] != first
    ensures Unique(head + sorted)
  {
    var r := head + sorted;
    forall a, b | 0 <= a < b < |r|
      ensures r[a] != r[b]
    {
      assert r[b] == sorted[b - |head|];
      if a >= |head| {
        assert r[a] == sorted[a - |head|];
      }
    }
  }

  /** Before numbered names, the only name can be the one put first. */
  lemma HeadNumbered(head: seq<string>, sorted: seq<string>, first: string)
    requires |head| <= 1 && forall k :: 0 <= k < |head| ==> head[k] == first
    requires forall k :: 0 <= k < |sorted| ==> Numbered(sorted[k])
    ensures forall a :: 0 <= a < |head + sorted| ==> Numbered((head + sorted)[a]) || (head + sorted)[a] == first
  {
    var r := head + sorted;
    forall a | 0 <= a < |r|
      ensures Numbered(r[a]) || r[a] == first
    {
      if a >= |head| {
        assert r[a] == sorted[a - |head|];
      }
    }
  }

  /** A name without a number put first keeps the numbered names in order. */
  lemma HeadSorted(head: seq<string>, sorted: seq<string>, first: string)
    requires |head| <= 1 && forall k :: 0 <= k < |head| ==> head[k] == first
    requires !Numbered(first) && SortedByNumber(sorted)
    ensures SortedByNumber(head + sorted)
  {
    var r := head + sorted;
    forall a, b | 0 <= a < b < |r| && Numbered(r[a]) && Numbered(r[b])
      ensures Number(r[a]).value <= Number(r[b]).value
    {
      assert r[a] == sorted[a - |head|] && r[b] == sorted[b - |head|];
    }
  }

  lemma ListedShape(grilles: seq<string>, first: string)
    requires !Numbered(first)
    ensures Unique(ListedFrom(grilles, first))
    ensures forall x :: x in ListedFrom(grilles, first) <==> x in grilles && (Numbered(x) || x == first)
    ensures first in grilles ==> ListedFrom(grilles, first)[0] == first
    ensures forall a, b :: (0 <= a < b < |ListedFrom(grilles, first)| && Numbered(ListedFrom(grilles, first)[b])) ==>
              Numbered(ListedFrom(grilles, first)[a]) || ListedFrom(grilles, first)[a] == first
    ensures SortedByNumber(ListedFrom(grilles, first))
  {
    SortedNamesFacts(grilles, first);
    var sorted := SortByNumber(NumberedNames(grilles));
    var head: seq<string> := if first in grilles then [first] else [];
    var r := head + sorted;
    assert r == ListedFrom(grilles, first);
    HeadNumbered(head, sorted, first);
    HeadUnique(head, sorted, first);
    HeadSorted(head, sorted, first);
  }


  /** The position of the first occurrence of x in gs. */
  function FirstIndex(gs: seq<string>, x: string): (k: nat)
    requires x in gs
    ensures k < |gs| && gs[k] == x && x !in gs[..k]
  {
    if gs[0] == x then 0
    else
      var k := FirstIndex(gs[1..], x) + 1;
      assert gs[..k] == [gs[0]] + gs[1..][..k - 1];
      k
  }

  /**
   * The names appended by AppendMissing come in the order of their first
   * occurrence in gs.
   */
  lemma {:induction false} AppendMissingOrder(lst: seq<string>, gs: seq<string>, a: nat, b: nat)
    requires |lst| <= a < b < |AppendMissing(lst, gs)|
    ensures AppendMissing(lst, gs)[a] in gs && AppendMissing(lst, gs)[b] in gs
    ensures FirstIndex(gs, AppendMissing(lst, gs)[a]) < FirstIndex(gs, AppendMissing(lst, gs)[b])
    decreases |gs|
  {
    var r := AppendMissing(lst, gs);
    assert gs != [];
    var x, y := r[a], r[b];
    if gs[0] in lst {
      AppendMissingOrder(lst, gs[1..], a, b);
      FirstIndexTail(gs, x);
      FirstIndexTail(gs, y);
    } else if a == |lst| {
      assert x == gs[0];
      assert y != gs[0];
      FirstIndexTail(gs, y);
    } else {
      AppendMissingOrder(lst + [gs[0]], gs[1..], a, b);
      FirstIndexTail(gs, x);
      FirstIndexTail(gs, y);
    }
  }

  lemma FirstIndexTail(gs: seq<string>, x: string)
    requires gs != [] && x in gs[1..] && x != gs[0]
    ensures FirstIndex(gs, x) == FirstIndex(gs[1..], x) + 1
  {
  }

  lemma TrieFromOrder(grilles: seq<string>, first: string)
    requires !Numbered(first)
    ensures Unique(TrieFrom(grilles, first))
    ensures forall x :: x in TrieFrom(grilles, first) <==> x in grilles
    ensures first in grilles ==> TrieFrom(grilles, first)[0] == first
    ensures forall a, b :: (0 <= a < b < |TrieFrom(grilles, first)| && Numbered(TrieFrom(grilles, first)[b])) ==>
              Numbered(TrieFrom(grilles, first)[a]) || TrieFrom(grilles, first)[a] == first
    ensures SortedByNumber(TrieFrom(grilles, first))
  {
    ListedShape(grilles, first);
    var lst := ListedFrom(grilles, first);
    var r := TrieFrom(grilles, first);
    forall a, b | 0 <= a < b < |r| && Numbered(r[b])
      ensures Numbered(r[a]) || r[a] == first
    {
      assert r[a] == lst[a] && r[b] == lst[b];
    }
    forall a, b | 0 <= a < b < |r| && Numbered(r[a]) && Numbered(r[b])
      ensures Number(r[a]).value <= Number(r[b]).value
    {
      assert r[a] == lst[a] && r[b] == lst[b];
    }
  }

  lemma TrieFromOthers(grilles: seq<string>, first: string)
    requires !Numbered(first)
    ensures forall a, b :: (0 <= a < b < |TrieFrom(grilles, first)| &&
              !Numbered(TrieFrom(grilles, first)[a]) && TrieFrom(grilles, first)[a] != first &&
              !Numbered(TrieFrom(grilles, first)[b]) && TrieFrom(grilles, first)[b] != first) ==>
              (TrieFrom(grilles, first)[a] in grilles && TrieFrom(grilles, first)[b] in grilles &&
               FirstIndex(grilles, TrieFrom(grilles, first)[a]) < FirstIndex(grilles, TrieFrom(grilles, first)[b]))
  {
    var lst := ListedFrom(grilles, first);
    var r := TrieFrom(grilles, first);
    forall a, b | 0 <= a < b < |r| && !Numbered(r[a]) && r[a] != first && !Numbered(r[b]) && r[b] != first
      ensures r[a] in grilles && r[b] in grilles && FirstIndex(grilles, r[a]) < FirstIndex(grilles, r[b])
    {
      assert a >= |lst| by {
        ListedShape(grilles, first);
      }
      AppendMissingOrder(lst, grilles, a, b);
    }
  }

  /**
   * trieLstGrille returns every name of the listing once: the saved game
   * first, then the numbered grids by increasing number.
   */
  lemma TrieNumberedFirst(grilles: seq<string>)
    ensures Unique(TrieLstGrille(grilles))
    ensures forall x :: x in TrieLstGrille(grilles) <==> x in grilles
    ensures Resume in grilles ==> TrieLstGrille(grilles)[0] == Resume
    ensures forall a, b :: (0 <= a < b < |TrieLstGrille(grilles)| && Numbered(TrieLstGrille(grilles)[b])) ==>
              Numbered(TrieLstGrille(grilles)[a]) || TrieLstGrille(grilles)[a] == Resume
    ensures SortedByNumber(TrieLstGrille(grilles))
  {
    ResumeNotNumbered();
    TrieFromOrder(grilles, Resume);
  }

  /** The other names follow, in the order they first come in the listing. */
  lemma TrieOthersInOrder(grilles: seq<string>)
    ensures forall a, b :: (0 <= a < b < |TrieLstGrille(grilles)| &&
              Other(TrieLstGrille(grilles)[a]) && Other(TrieLstGrille(grilles)[b])) ==>
              (TrieLstGrille(grilles)[a] in grilles && TrieLstGrille(grilles)[b] in grilles &&
               FirstIndex(grilles, TrieLstGrille(grilles)[a]) < FirstIndex(grilles, TrieLstGrille(grilles)[b]))
  {
    ResumeNotNumbered();
    TrieFromOthers(grilles, Resume);
  }

  lemma GrilleNumbers()
    ensures Number("Grille2") == Some(2) && Number("Grille1") == Some(1)
  {
    assert "Grille2"[6..] == "2" && RemoveTxt("2") == "2";
    assert "Grille1"[6..] == "1" && RemoveTxt("1") == "1";
  }

  /** Two different numbered names are both listed, in their order. */
  lemma NumberedPair(x: string, y: string)
    requires Numbered(x) && Numbered(y) && x != y
    ensures NumberedNames([x, y]) == [x, y]
  {
    assert [x, y][..1] == [x] && [x][..0] == [];
    assert NumberedNames([x]) == [x];
  }

  /** Two numbered names in decreasing order are swapped by the sort. */
  lemma SortPair(x: string, y: string)
    requires Numbered(x) && Numbered(y) && Number(y).value < Number(x).value
    ensures SortByNumber([x, y]) == [y, x]
  {
    assert [x, y][..1] == [x] && [x][..0] == [];
    assert SortByNumber([x]) == [x];
    assert Insert([x], y) == Insert([], y) + [x];
  }

  lemma SortExample()
    ensures NumberedNames(["Grille2", "Grille1"]) == ["Grille2", "Grille1"]
    ensures SortByNumber(["Grille2", "Grille1"]) == ["Grille1", "Grille2"]
  {
    GrilleNumbers();
    assert "Grille2"[6] != "Grille1"[6];
    NumberedPair("Grille2", "Grille1");
    SortPair("Grille2", "Grille1");
  }

  /** The example of the documentation. */
  lemma TrieExample()
    ensures TrieLstGrille(["Grille2", "Grille1"]) == ["Grille1", "Grille2"]
  {
    SortExample();
    var gs := ["Grille2", "Grille1"];
    assert Resume !in gs by {
      assert |Resume| != |gs[0]| && |Resume| != |gs[1]|;
    }
    assert ListedFrom(gs, Resume) == ["Grille1", "Grille2"];
    assert gs[1..] == ["Grille1"] && gs[1..][1..] == [];
    assert AppendMissing(["Grille1", "Grille2"], gs) == ["Grille1", "Grille2"];
  }

  // ---------------------------------------------------------------------
  // calcule_temps (the part after the datetime difference)

  /** Left-pads a one-character string with '0'. */
  function Pad2(s: string): (r: string)
    requires AllDigits(s)
    ensures AllDigits(r) && DigitsValue(r) == DigitsValue(s)
    ensures |r| == if |s| == 1 then 2 else |s|
  {
    if |s| == 1 then LeadingZero(s); "0" + s else s
  }

  /**
   * calcule_temps: the elapsed seconds give minutes and seconds, which are
   * added to the saved [minutes, seconds] field by field, then written with
   * at least two digits.
   */
  function CalculeTemps(elapsed: nat, saved: (nat, nat)): (r: seq<string>)
    ensures |r| == 2 && |r[0]| >= 2 && |r[1]| >= 2 && AllDigits(r[0]) && AllDigits(r[1])
    ensures DigitsValue(r[0]) == elapsed / 60 + saved.0
    ensures DigitsValue(r[1]) == elapsed % 60 + saved.1
  {
    [Pad2(DecimalString(elapsed / 60 + saved.0)), Pad2(DecimalString(elapsed % 60 + saved.1))]
  }

  /** The seconds field is not carried into the minutes: 50 saved seconds and 30 more show 80. */
  lemma SecondsNotCarried()
    ensures CalculeTemps(30, (0, 50)) == ["00", "80"]
  {
    assert DigitChar(8) == '8' && DigitChar(0) == '0';
    assert DecimalString(8) == "8";
    assert DecimalString(80) == "80";
    assert DecimalString(0) == "0";
    assert Pad2("0") == "00";
    assert Pad2("80") == "80";
    assert CalculeTemps(30, (0, 50)) == [Pad2(DecimalString(0)), Pad2(DecimalString(80))];
  }

  /** The playing time with the seconds carried into the minutes. */
  function CarriedTemps(elapsed: nat, saved: (nat, nat)): (r: seq<string>)
    ensures |r| == 2 && |r[0]| >= 2 && |r[1]| == 2 && AllDigits(r[0]) && AllDigits(r[1])
    ensures DigitsValue(r[1]) < 60
    ensures 60 * DigitsValue(r[0]) + DigitsValue(r[1]) == elapsed + 60 * saved.0 + saved.1
  {
    var total := elapsed + 60 * saved.0 + saved.1;
    [Pad2(DecimalString(total / 60)), Pad2(DecimalString(total % 60))]
  }
}
