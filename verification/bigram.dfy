/** The character-level bigram demo: names are read one per line (trimmed,
    blank lines skipped), every character is mapped to a row/column index of a
    27 x 27 count table ('.' is 0, 'a'..'z' are 1..26), and each name adds one
    count per character for the pair (previous character, character), the
    first character's predecessor being '.'.

    `char_to_index` and `index_to_char` work on the low eight bits of their
    argument (`as u8`); an underflow or overflow of that byte arithmetic panics,
    and the functions here require it away. */
module Bigram {

  // ---- characters and indices ----

  /** `c as u8`: the low eight bits of the code point. */
  function Byte(c: char): nat
  {
    (c as int) % 256
  }

  /** `char_to_index(c)` does not panic: `c` is '.', or `c as u8 - b'a'` does not underflow. */
  predicate Indexable(c: char)
  {
    c == '.' || Byte(c) >= 97
  }

  /** `char_to_index`. */
  function CharToIndex(c: char): (i: nat)
    requires Indexable(c)
    ensures i <= 159
    ensures i == 0 <==> c == '.'
  {
    if c == '.' then 0 else Byte(c) - 97 + 1
  }

  /** `index_to_char(i)` does not panic: `i` is 0, or `b'a' + i as u8` does not overflow. */
  predicate Printable(i: nat)
  {
    i == 0 || 97 + i % 256 <= 255
  }

  /** `index_to_char`. */
  function IndexToChar(i: nat): (c: char)
    requires Printable(i)
    ensures c == '.' <==> i == 0
  {
    if i == 0 then '.' else (97 + i % 256 - 1) as char
  }

  /** '.' and 'a'..'z' are exactly the characters with index 0..26, in alphabet order. */
  lemma AlphabetIndices(c: char)
    requires c == '.' || 'a' <= c <= 'z'
    ensures Indexable(c) && CharToIndex(c) <= 26
    ensures c != '.' ==> CharToIndex(c) == (c as int) - ('a' as int) + 1
  {
  }

  /** `index_to_char(char_to_index(c)) == c` on the alphabet. */
  lemma CharRoundTrip(c: char)
    requires c == '.' || 'a' <= c <= 'z'
    ensures Indexable(c) && Printable(CharToIndex(c)) && IndexToChar(CharToIndex(c)) == c
  {
  }

  /** `char_to_index(index_to_char(i)) == i` on 0..26, and 1..26 name the letters. */
  lemma IndexRoundTrip(i: nat)
    requires i <= 26
    ensures Printable(i) && Indexable(IndexToChar(i)) && CharToIndex(IndexToChar(i)) == i
    ensures i > 0 ==> 'a' <= IndexToChar(i) <= 'z'
  {
  }

  /** The round trip holds beyond the alphabet for every code point 97..254;
      code point 255 maps to 159, which `index_to_char` cannot convert back. */
  lemma ByteRoundTrip(c: char)
    requires 97 <= c as int <= 254
    ensures Indexable(c) && Printable(CharToIndex(c)) && IndexToChar(CharToIndex(c)) == c
  {
  }

  lemma LastByteHasNoWayBack()
    ensures Indexable('\U{FF}') && CharToIndex('\U{FF}') == 159 && !Printable(159)
  {
  }

  /** `as u8` drops the high bits: characters above U+00FF share the index of a
      character below it, and characters below 'a' other than '.' panic. */
  lemma IndexTruncates()
    ensures Indexable('\U{161}') && CharToIndex('\U{161}') == CharToIndex('a') == 1
    ensures !Indexable('A') && !Indexable(' ') && !Indexable('0')
  {
  }

  // ---- lines and names ----

  /** `char::is_whitespace`: the Unicode White_Space property. */
  predicate IsWhitespace(c: char)
  {
    var n := c as int;
    (9 <= n <= 13) || n == 0x20 || n == 0x85 || n == 0xA0 || n == 0x1680
    || (0x2000 <= n <= 0x200A) || n == 0x2028 || n == 0x2029 || n == 0x202F
    || n == 0x205F || n == 0x3000
  }

  /** Every character of `s[lo..hi]` is whitespace. */
  predicate BlankBetween(s: string, lo: nat, hi: nat)
    requires lo <= hi <= |s|
  {
    forall k :: lo <= k < hi ==> IsWhitespace(s[k])
  }

  predicate Blank(s: string)
  {
    BlankBetween(s, 0, |s|)
  }

  /** `s` neither starts nor ends with whitespace. */
  predicate Trimmed(s: string)
  {
    s == [] || (!IsWhitespace(s[0]) && !IsWhitespace(s[|s| - 1]))
  }

  /** Where `trim_start` cuts: the first index from `i` on that is not whitespace. */
  function StartOf(s: string, i: nat): (a: nat)
    requires i <= |s|
    ensures i <= a <= |s| && BlankBetween(s, i, a)
    ensures a < |s| ==> !IsWhitespace(s[a])
    decreases |s| - i
  {
    if i < |s| && IsWhitespace(s[i]) then StartOf(s, i + 1) else i
  }

  /** Where `trim_end` cuts `s[lo..j]`: just after its last character that is not whitespace. */
  function EndOf(s: string, lo: nat, j: nat): (b: nat)
    requires lo <= j <= |s|
    ensures lo <= b <= j && BlankBetween(s, b, j)
    ensures b > lo ==> !IsWhitespace(s[b - 1])
    decreases j
  {
    if j > lo && IsWhitespace(s[j - 1]) then EndOf(s, lo, j - 1) else j
  }

  /** `str::trim`: the piece of `s` between its leading and its trailing whitespace. */
  function Trim(s: string): (r: string)
    ensures Trimmed(r) && |r| <= |s|
  {
    var a := StartOf(s, 0);
    s[a..EndOf(s, a, |s|)]
  }

  /** What `trim` keeps is the piece of the line starting at `a`, and what it
      cuts on either side is whitespace. */
  lemma TrimCutsWhitespace(s: string) returns (a: nat)
    ensures a + |Trim(s)| <= |s| && Trim(s) == s[a..a + |Trim(s)|]
    ensures BlankBetween(s, 0, a) && BlankBetween(s, a + |Trim(s)|, |s|)
  {
    a := StartOf(s, 0);
  }

  /** A line trims to nothing exactly when it is blank. */
  lemma TrimEmptyIffBlank(s: string)
    ensures Trim(s) == [] <==> Blank(s)
  {
  }

  /** Trimming a trimmed string changes nothing. */
  lemma TrimIdempotent(s: string)
    ensures Trim(Trim(s)) == Trim(s)
  {
  }

  /** The end of the first line: the index of the first '\n', or the length. */
  function LineEnd(s: string): (k: nat)
    ensures k <= |s| && (k < |s| ==> s[k] == '\n')
    ensures forall i :: 0 <= i < k ==> s[i] != '\n'
  {
    if s == [] || s[0] == '\n' then 0 else 1 + LineEnd(s[1..])
  }

  /** `str::lines`: pieces split after every '\n'; a '\n' ends a line and a
      "\r\n" does too, while a last line without '\n' is kept as it is. */
  function Lines(s: string): (ls: seq<string>)
    ensures forall k :: 0 <= k < |ls| ==> '\n' !in ls[k]
    decreases |s|
  {
    if s == [] then []
    else
      var k := LineEnd(s);
      if k == |s| then [s]
      else
        var line := if k > 0 && s[k - 1] == '\r' then s[..k - 1] else s[..k];
        assert forall i :: 0 <= i < |line| ==> line[i] == s[i];
        [line] + Lines(s[k + 1..])
  }

  /** A final line ending adds no line: `"ab\n"` has the lines of `"ab"`. */
  lemma FinalNewlineOptional(s: string)
    requires s != [] && '\n' !in s && s[|s| - 1] != '\r'
    ensures Lines(s + "\n") == Lines(s) == [s]
  {
    assert LineEnd(s + "\n") == |s| by {
      LineEndAt(s + "\n", |s|);
    }
    assert (s + "\n")[..|s|] == s;
    assert (s + "\n")[|s| + 1..] == [];
  }

  lemma {:induction false} LineEndAt(s: string, k: nat)
    requires k < |s| && s[k] == '\n' && forall i :: 0 <= i < k ==> s[i] != '\n'
    ensures LineEnd(s) == k
  {
    if k > 0 {
      LineEndAt(s[1..], k - 1);
    }
  }

  /** The trimmed lines that are not blank, in order. */
  function Names(lines: seq<string>): (ns: seq<string>)
    ensures |ns| <= |lines|
  {
    if lines == [] then []
    else if Trim(lines[0]) == [] then Names(lines[1..])
    else [Trim(lines[0])] + Names(lines[1..])
  }

  /** Every entry is non-empty and has no whitespace at either end. */
  predicate AllTrimmed(ns: seq<string>)
  {
    forall k :: 0 <= k < |ns| ==> ns[k] != [] && Trimmed(ns[k])
  }

  lemma AllTrimmedCons(t: string, rest: seq<string>)
    requires t != [] && Trimmed(t) && AllTrimmed(rest)
    ensures AllTrimmed([t] + rest)
  {
    forall k | 1 <= k < |rest| + 1 ensures ([t] + rest)[k] == rest[k - 1] {
    }
  }

  /** Every name is non-empty and has no whitespace at either end. */
  lemma {:induction false} NamesAreTrimmed(lines: seq<string>)
    ensures AllTrimmed(Names(lines))
  {
    if lines != [] {
      NamesAreTrimmed(lines[1..]);
      var t := Trim(lines[0]);
      if t != [] {
        AllTrimmedCons(t, Names(lines[1..]));
      }
    }
  }

  /** Blank and whitespace-only lines give no names; every other line gives its trimmed text. */
  lemma {:induction false} NamesSkipBlank(lines: seq<string>, line: string)
    ensures Blank(line) ==> Names([line] + lines) == Names(lines)
    ensures !Blank(line) ==> Names([line] + lines) == [Trim(line)] + Names(lines)
  {
    TrimEmptyIffBlank(line);
    assert ([line] + lines)[1..] == lines;
  }

  // ---- the count table ----

  const Size: nat := 27

  type Table = seq<seq<nat>>

  predicate IsTable(t: Table)
  {
    |t| == Size && forall r :: 0 <= r < Size ==> |t[r]| == Size
  }

  /** `[[0u64; 27]; 27]`. */
  function EmptyTable(): (t: Table)
    ensures IsTable(t) && forall i, j :: 0 <= i < Size && 0 <= j < Size ==> t[i][j] == 0
  {
    seq(Size, i => seq(Size, j => 0))
  }

  /** The table index of a character: `char_to_index(c) % 27`. */
  function Cell(c: char): (i: nat)
    requires Indexable(c)
    ensures i < Size
  {
    CharToIndex(c) % Size
  }

  /** Every character of a name has an index. */
  predicate Countable(name: string)
  {
    forall k :: 0 <= k < |name| ==> Indexable(name[k])
  }

  predicate AllCountable(names: seq<string>)
  {
    forall k :: 0 <= k < |names| ==> Countable(names[k])
  }

  /** `ch_lookup[i][j] += 1`. */
  function Bump(t: Table, i: nat, j: nat): (r: Table)
    requires IsTable(t) && i < Size && j < Size
    ensures IsTable(r) && r[i][j] == t[i][j] + 1
    ensures forall a, b :: 0 <= a < Size && 0 <= b < Size && (a, b) != (i, j) ==> r[a][b] == t[a][b]
  {
    t[i := t[i][j := t[i][j] + 1]]
  }

  /** The predecessor of position `k` of a name: '.' for the first character. */
  function Prev(name: string, k: nat): char
    requires k <= |name|
  {
    if k == 0 then '.' else name[k - 1]
  }

  /** The inner loop over one name, as the fold it is: after the first `|name|`
      characters, the last one has been counted against its predecessor. */
  function CountName(t: Table, name: string): (r: Table)
    requires IsTable(t) && Countable(name)
    ensures IsTable(r)
  {
    if name == [] then t
    else
      var n := |name| - 1;
      Bump(CountName(t, name[..n]), Cell(Prev(name, n)), Cell(name[n]))
  }

  /** The outer loop over the names. */
  function CountAll(t: Table, names: seq<string>): (r: Table)
    requires IsTable(t) && AllCountable(names)
    ensures IsTable(r)
  {
    if names == [] then t
    else CountName(CountAll(t, names[..|names| - 1]), names[|names| - 1])
  }

  /** The bigram a name records at position `k`: its predecessor's cell and its own. */
  function BigramAt(name: string, k: nat): (nat, nat)
    requires Countable(name) && k < |name|
  {
    (Cell(Prev(name, k)), Cell(name[k]))
  }

  /** The bigrams of a name, as table cells, in order. */
  function Bigrams(name: string): (bs: seq<(nat, nat)>)
    requires Countable(name)
    ensures |bs| == |name|
  {
    if name == [] then [] else Bigrams(name[..|name| - 1]) + [BigramAt(name, |name| - 1)]
  }

  /** One bigram per character, the `k`-th pairing character `k` with its predecessor. */
  lemma {:induction false} BigramsAt(name: string, k: nat)
    requires Countable(name) && k < |name|
    ensures Bigrams(name)[k] == BigramAt(name, k)
    decreases |name|
  {
    var n := |name| - 1;
    if k < n {
      BigramsAt(name[..n], k);
      assert Prev(name[..n], k) == Prev(name, k);
    }
  }

  /** The bigrams of all names, name after name. */
  function AllBigrams(names: seq<string>): (bs: seq<(nat, nat)>)
    requires AllCountable(names)
  {
    if names == [] then [] else AllBigrams(names[..|names| - 1]) + Bigrams(names[|names| - 1])
  }

  /** Counting a name adds, to every cell, the number of its bigrams that fall in that cell. */
  lemma {:induction false} CountNameCells(t: Table, name: string, i: nat, j: nat)
    requires IsTable(t) && Countable(name) && i < Size && j < Size
    ensures CountName(t, name)[i][j] == t[i][j] + multiset(Bigrams(name))[(i, j)]
    decreases |name|
  {
    if name != [] {
      var n := |name| - 1;
      CountNameCells(t, name[..n], i, j);
    }
  }

  /** The whole table counts the multiset of bigrams of all names. */
  lemma {:induction false} CountAllCells(t: Table, names: seq<string>, i: nat, j: nat)
    requires IsTable(t) && AllCountable(names)
    requires i < Size && j < Size
    ensures CountAll(t, names)[i][j] == t[i][j] + multiset(AllBigrams(names))[(i, j)]
    decreases |names|
  {
    if names != [] {
      var n := |names| - 1;
      CountAllCells(t, names[..n], i, j);
      CountNameCells(CountAll(t, names[..n]), names[n], i, j);
    }
  }

  /** Counts never decrease. */
  lemma CountAllGrows(t: Table, names: seq<string>, i: nat, j: nat)
    requires IsTable(t) && AllCountable(names)
    requires i < Size && j < Size
    ensures CountAll(t, names)[i][j] >= t[i][j]
  {
    CountAllCells(t, names, i, j);
  }

  /** A name's first bigram is counted in row 0, the row of '.'. */
  lemma FirstBigramFromDot(t: Table, name: string)
    requires IsTable(t) && Countable(name) && name != []
    ensures CountName(t, name)[0][Cell(name[0])] >= t[0][Cell(name[0])] + 1
  {
    var c := Cell(name[0]);
    CountNameCells(t, name, 0, c);
    BigramsAt(name, 0);
    assert Cell(Prev(name, 0)) == 0 by {
      assert CharToIndex('.') == 0;
    }
    assert Bigrams(name)[0] in multiset(Bigrams(name));
  }

  // ---- totals ----

  function Sum(s: seq<nat>): nat
  {
    if s == [] then 0 else s[0] + Sum(s[1..])
  }

  /** The sum of all counts of a table. */
  function Total(t: Table): nat
  {
    if t == [] then 0 else Sum(t[0]) + Total(t[1..])
  }

  lemma {:induction false} SumBump(s: seq<nat>, j: nat)
    requires j < |s|
    ensures Sum(s[j := s[j] + 1]) == Sum(s) + 1
  {
    if j > 0 {
      SumBump(s[1..], j - 1);
      assert s[j := s[j] + 1][1..] == s[1..][j - 1 := s[j] + 1];
    }
  }

  lemma {:induction false} TotalRow(t: Table, i: nat, row: seq<nat>)
    requires i < |t| && Sum(row) == Sum(t[i]) + 1
    ensures Total(t[i := row]) == Total(t) + 1
  {
    if i > 0 {
      TotalRow(t[1..], i - 1, row);
      assert t[i := row][1..] == t[1..][i - 1 := row];
    }
  }

  /** Each `+= 1` adds exactly one count to the table. */
  lemma BumpTotal(t: Table, i: nat, j: nat)
    requires IsTable(t) && i < Size && j < Size
    ensures Total(Bump(t, i, j)) == Total(t) + 1
  {
    SumBump(t[i], j);
    TotalRow(t, i, t[i][j := t[i][j] + 1]);
  }

  /** A name adds as many counts as it has characters: no closing bigram is recorded. */
  lemma {:induction false} CountNameTotal(t: Table, name: string)
    requires IsTable(t) && Countable(name)
    ensures Total(CountName(t, name)) == Total(t) + |name|
    decreases |name|
  {
    if name != [] {
      var n := |name| - 1;
      CountNameTotal(t, name[..n]);
      BumpTotal(CountName(t, name[..n]), Cell(Prev(name, n)), Cell(name[n]));
    }
  }

  function Lengths(names: seq<string>): nat
  {
    if names == [] then 0 else Lengths(names[..|names| - 1]) + |names[|names| - 1]|
  }

  lemma {:induction false} CountAllTotal(t: Table, names: seq<string>)
    requires IsTable(t) && AllCountable(names)
    ensures Total(CountAll(t, names)) == Total(t) + Lengths(names)
    decreases |names|
  {
    if names != [] {
      var n := |names| - 1;
      CountAllTotal(t, names[..n]);
      CountNameTotal(CountAll(t, names[..n]), names[n]);
    }
  }

  lemma {:induction false} ZerosTotal(rows: Table)
    requires forall i, j :: 0 <= i < |rows| && 0 <= j < |rows[i]| ==> rows[i][j] == 0
    ensures Total(rows) == 0
  {
    if rows != [] {
      ZerosSum(rows[0]);
      ZerosTotal(rows[1..]);
    }
  }

  lemma EmptyTotal()
    ensures Total(EmptyTable()) == 0
  {
    ZerosTotal(EmptyTable());
  }

  lemma {:induction false} ZerosSum(s: seq<nat>)
    requires forall j :: 0 <= j < |s| ==> s[j] == 0
    ensures Sum(s) == 0
  {
    if s != [] {
      ZerosSum(s[1..]);
    }
  }

  // ---- the demos ----

  /** Counting into the empty table: every cell holds the number of bigrams
      that fall in it, and the total is the number of characters. */
  lemma CountFromEmpty(names: seq<string>)
    requires AllCountable(names)
    ensures Total(CountAll(EmptyTable(), names)) == Lengths(names)
    ensures forall i, j :: 0 <= i < Size && 0 <= j < Size ==>
      CountAll(EmptyTable(), names)[i][j] == multiset(AllBigrams(names))[(i, j)]
  {
    EmptyTotal();
    CountAllTotal(EmptyTable(), names);
    forall i, j | 0 <= i < Size && 0 <= j < Size
      ensures CountAll(EmptyTable(), names)[i][j] == multiset(AllBigrams(names))[(i, j)]
    {
      CountAllCells(EmptyTable(), names, i, j);
    }
  }

  /** The table `bigram_example` in make_more builds from a file's text. */
  function BigramTable(content: string): (t: Table)
    requires AllCountable(Names(Lines(content)))
    ensures IsTable(t)
    ensures Total(t) == Lengths(Names(Lines(content)))
    ensures forall i, j :: 0 <= i < Size && 0 <= j < Size ==> t[i][j] == multiset(AllBigrams(Names(Lines(content))))[(i, j)]
  {
    var names := Names(Lines(content));
    CountFromEmpty(names);
    CountAll(EmptyTable(), names)
  }

  /** The loops of `bigram_example` in the bigram demo, which also count the
      names in `i`. */
  method CountBigrams(names: seq<string>) returns (t: Table, i: nat)
    requires AllCountable(names)
    ensures t == CountAll(EmptyTable(), names) && i == |names|
    ensures Total(t) == Lengths(names)
  {
    t := EmptyTable();
    i := 0;
    for n := 0 to |names|
      invariant IsTable(t) && t == CountAll(EmptyTable(), names[..n]) && i == n
    {
      var name := names[n];
      var ch1 := '.';
      for k := 0 to |name|
        invariant IsTable(t) && t == CountName(CountAll(EmptyTable(), names[..n]), name[..k])
        invariant ch1 == Prev(name, k)
      {
        var ch2 := name[k];
        t := Bump(t, Cell(ch1), Cell(ch2));
        assert name[..k + 1][..k] == name[..k];
        ch1 := ch2;
      }
      assert names[..n + 1][..n] == names[..n] && name[..|name|] == name;
      i := i + 1;
    }
    assert names[..|names|] == names;
    CountFromEmpty(names);
  }
}
