/** The alphabet map and the dense bad-character table (bm.py, dense_bad_char_table and the
    dictionary built in BoyerMoore.__init__). */
module BadCharacter {

  datatype Result<T> = Success(value: T) | Failure(error: AlphabetError)

  /** The only way table construction fails: a symbol with no index in the alphabet map. */
  datatype AlphabetError = SymbolNotInAlphabet(symbol: char)

  /** No symbol occurs twice in the alphabet. */
  ghost predicate Distinct(alphabet: string)
  {
    forall i, j :: 0 <= i < j < |alphabet| ==> alphabet[i] != alphabet[j]
  }

  /** The alphabet map {alphabet[i]: i}: every symbol of the alphabet is a key, and a key maps
      to a position holding that symbol. Built left to right, so a repeated symbol keeps its
      last position. */
  function AlphabetMap(alphabet: string): (amap: map<char, int>)
    ensures forall c :: c in amap <==> c in alphabet
    ensures forall c :: c in amap ==> 0 <= amap[c] < |alphabet| && alphabet[amap[c]] == c
  {
    if |alphabet| == 0 then map[]
    else AlphabetMap(alphabet[..|alphabet| - 1])[alphabet[|alphabet| - 1] := |alphabet| - 1]
  }

  /** For a duplicate-free alphabet, the map sends alphabet[i] to i and has one key per
      symbol, so every index it holds is a valid column of the table. */
  lemma {:induction false} AlphabetMapDistinct(alphabet: string)
    requires Distinct(alphabet)
    ensures |AlphabetMap(alphabet)| == |alphabet|
    ensures forall i :: 0 <= i < |alphabet| ==> AlphabetMap(alphabet)[alphabet[i]] == i
  {
    if |alphabet| > 0 {
      var front := alphabet[..|alphabet| - 1];
      assert Distinct(front);
      AlphabetMapDistinct(front);
      var last := alphabet[|alphabet| - 1];
      assert last !in front;
      assert last !in AlphabetMap(front);
      forall i | 0 <= i < |alphabet| ensures AlphabetMap(alphabet)[alphabet[i]] == i {
        if i < |alphabet| - 1 {
          assert alphabet[i] == front[i];
        }
      }
    }
  }

  /** The table entry for column c after reading p[..i]: 1 + the rightmost k < i whose symbol
      has index c, or 0 when there is none. */
  function BadCharEntry(p: string, amap: map<char, int>, i: nat, c: int): (r: nat)
    requires i <= |p|
    requires forall k :: 0 <= k < i ==> p[k] in amap
    ensures r <= i
    ensures r > 0 ==> amap[p[r - 1]] == c
    ensures forall k :: r <= k < i ==> amap[p[k]] != c
  {
    if i == 0 then 0
    else if amap[p[i - 1]] == c then i
    else BadCharEntry(p, amap, i - 1, c)
  }

  /** Through a map that the alphabet inverts, the entry of row i for symbol c is 1 + the
      rightmost k < i with p[k] == c, or 0 when c does not occur in p[..i]. */
  lemma BadCharEntrySymbol(p: string, amap: map<char, int>, alphabet: string, i: nat, c: char)
    requires i <= |p| && c in amap
    requires forall k :: 0 <= k < i ==> p[k] in amap
    requires forall d :: d in amap ==> 0 <= amap[d] < |alphabet| && alphabet[amap[d]] == d
    ensures var r := BadCharEntry(p, amap, i, amap[c]);
      && (r > 0 ==> p[r - 1] == c)
      && forall k :: r <= k < i ==> p[k] != c
  {
    var r := BadCharEntry(p, amap, i, amap[c]);
    if r > 0 {
      assert alphabet[amap[p[r - 1]]] == p[r - 1] && alphabet[amap[c]] == c;
    }
  }

  /** Row i of the table: one entry per alphabet index. */
  function BadCharRow(p: string, amap: map<char, int>, i: nat): (row: seq<int>)
    requires i <= |p|
    requires forall k :: 0 <= k < i ==> p[k] in amap
    ensures |row| == |amap|
  {
    seq(|amap|, c requires 0 <= c < |amap| => BadCharEntry(p, amap, i, c))
  }

  /** The whole table by definition: row i for every pattern offset i. */
  function BadCharValues(p: string, amap: map<char, int>): (table: seq<seq<int>>)
    requires forall k :: 0 <= k < |p| ==> p[k] in amap
    ensures |table| == |p|
  {
    seq(|p|, i requires 0 <= i < |p| => BadCharRow(p, amap, i))
  }

  /** Row 0 is all zeros, and every entry of row i is at most i. */
  lemma BadCharRowBounds(p: string, amap: map<char, int>, i: nat, c: nat)
    requires i <= |p| && c < |amap|
    requires forall k :: 0 <= k < i ==> p[k] in amap
    ensures 0 <= BadCharRow(p, amap, i)[c] <= i
    ensures i == 0 ==> BadCharRow(p, amap, i)[c] == 0
  {
  }

  /** Row i+1 is row i with the column of p[i] set to i + 1, and no other change. */
  lemma BadCharRowStep(p: string, amap: map<char, int>, i: nat)
    requires i < |p|
    requires forall k :: 0 <= k <= i ==> p[k] in amap
    requires 0 <= amap[p[i]] < |amap|
    ensures BadCharRow(p, amap, i + 1) == BadCharRow(p, amap, i)[amap[p[i]] := i + 1]
  {
  }

  /** dense_bad_char_table: copy the running vector nxt into a new row for each offset, then
      record offset + 1 in the column of the symbol just read. Fails at the first pattern
      symbol the alphabet map does not know. */
  method DenseBadCharTable(pattern: string, amap: map<char, int>) returns (r: Result<seq<seq<int>>>)
    requires forall c :: c in amap ==> 0 <= amap[c] < |amap|
    ensures r.Success? <==> forall k :: 0 <= k < |pattern| ==> pattern[k] in amap
    ensures r.Success? ==> r.value == BadCharValues(pattern, amap)
    ensures r.Failure? ==>
      exists k :: (0 <= k < |pattern| && pattern[k] !in amap
        && r.error == SymbolNotInAlphabet(pattern[k])
        && forall k' :: 0 <= k' < k ==> pattern[k'] in amap)
  {
    var table: seq<seq<int>> := [];
    var nxt := seq(|amap|, _ => 0);
    var i := 0;
    while i < |pattern|
      invariant 0 <= i <= |pattern| && |table| == i
      invariant forall k :: 0 <= k < i ==> pattern[k] in amap
      invariant nxt == BadCharRow(pattern, amap, i)
      invariant forall q :: 0 <= q < i ==> table[q] == BadCharRow(pattern, amap, q)
    {
      var c := pattern[i];
      if c !in amap {
        return Failure(SymbolNotInAlphabet(c));
      }
      table := table + [nxt];
      BadCharRowStep(pattern, amap, i);
      nxt := nxt[amap[c] := i + 1];
      i := i + 1;
    }
    r := Success(table);
  }
}
