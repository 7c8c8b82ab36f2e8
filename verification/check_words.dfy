/**
 * The mnemonic "security check" page: the user picks the words of the
 * freshly generated mnemonic from an alphabetically ordered list, may remove
 * or drag-reorder the picked words, and the wallet is saved only once the
 * picked words spell the mnemonic in order.
 */
module CheckWords {
  import opened Wrappers
  import opened Text

  /** A mnemonic word together with the key that tells equal words apart. */
  datatype WordKey = WordKey(word: string, key: string)

  /** A rendered DOM element of a picked word; only its identity matters. */
  datatype ElementRef = ElementRef(id: nat)

  /** The wallet the SDK built from the mnemonic; only its presence matters. */
  datatype PlainWallet = PlainWallet(id: nat)

  function Words(ws: seq<WordKey>): seq<string> {
    seq(|ws|, i requires 0 <= i < |ws| => ws[i].word)
  }

  ghost predicate KeysDistinct(ws: seq<WordKey>) {
    forall i, j :: 0 <= i < j < |ws| ==> ws[i].key != ws[j].key
  }

  /** Appending an unpicked entry of a list with distinct keys keeps the picks' keys distinct. */
  lemma {:induction false} AppendKeepsKeysDistinct(picked: seq<WordKey>, list: seq<WordKey>, w: WordKey)
    requires KeysDistinct(picked) && KeysDistinct(list)
    requires forall x :: x in picked ==> x in list
    requires w in list && w !in picked
    ensures KeysDistinct(picked + [w])
  {
    var r := picked + [w];
    forall i, j | 0 <= i < j < |r| ensures r[i].key != r[j].key {
      if j == |picked| {
        assert r[i] == picked[i] && r[i] in list && r[j] == w;
        var a :| 0 <= a < |list| && list[a] == r[i];
        var b :| 0 <= b < |list| && list[b] == w;
        assert a != b;
      } else {
        assert r[i] == picked[i] && r[j] == picked[j];
      }
    }
  }

  ghost predicate SortedByWord(ws: seq<WordKey>) {
    forall i, j :: 0 <= i < j < |ws| ==> LessEq(ws[i].word, ws[j].word)
  }

  /** `a` is `b` with some entries left out, the rest kept in order. */
  ghost predicate Subsequence(a: seq<WordKey>, b: seq<WordKey>)
    decreases |b|
  {
    if a == [] then true
    else if b == [] then false
    else (a[0] == b[0] && Subsequence(a[1..], b[1..])) || Subsequence(a, b[1..])
  }

  lemma {:induction false} SubsequenceMembers(a: seq<WordKey>, b: seq<WordKey>)
    requires Subsequence(a, b)
    ensures forall x :: x in a ==> x in b
    decreases |b|
  {
    if a != [] {
      if a[0] == b[0] && Subsequence(a[1..], b[1..]) {
        SubsequenceMembers(a[1..], b[1..]);
        assert forall x :: x in a ==> x == a[0] || x in a[1..];
      } else {
        SubsequenceMembers(a, b[1..]);
      }
    }
  }

  /** Leaving entries out of a list keeps it in alphabetical order. */
  lemma {:induction false} SubsequenceKeepsOrder(a: seq<WordKey>, b: seq<WordKey>)
    requires Subsequence(a, b) && SortedByWord(b)
    ensures SortedByWord(a)
    decreases |b|
  {
    if a != [] {
      assert SortedByWord(b[1..]) by {
        forall i, j | 0 <= i < j < |b| - 1 ensures LessEq(b[1..][i].word, b[1..][j].word) {
          assert b[1..][i] == b[i + 1] && b[1..][j] == b[j + 1];
        }
      }
      if a[0] == b[0] && Subsequence(a[1..], b[1..]) {
        SubsequenceKeepsOrder(a[1..], b[1..]);
        SubsequenceMembers(a[1..], b[1..]);
        forall i, j | 0 <= i < j < |a| ensures LessEq(a[i].word, a[j].word) {
          assert a[j] == a[1..][j - 1];
          if i > 0 {
            assert a[i] == a[1..][i - 1];
          } else {
            assert a[j] in b[1..];
            var k :| 0 <= k < |b| - 1 && b[1..][k] == a[j];
            assert b[k + 1] == a[j];
          }
        }
      } else {
        SubsequenceKeepsOrder(a, b[1..]);
      }
    }
  }

  /** Leaving entries out of a list keeps its keys distinct. */
  lemma {:induction false} SubsequenceKeepsKeysDistinct(a: seq<WordKey>, b: seq<WordKey>)
    requires Subsequence(a, b) && KeysDistinct(b)
    ensures KeysDistinct(a)
    decreases |b|
  {
    if a != [] {
      assert KeysDistinct(b[1..]) by {
        forall i, j | 0 <= i < j < |b| - 1 ensures b[1..][i].key != b[1..][j].key {
          assert b[1..][i] == b[i + 1] && b[1..][j] == b[j + 1];
        }
      }
      if a[0] == b[0] && Subsequence(a[1..], b[1..]) {
        SubsequenceKeepsKeysDistinct(a[1..], b[1..]);
        SubsequenceMembers(a[1..], b[1..]);
        forall i, j | 0 <= i < j < |a| ensures a[i].key != a[j].key {
          assert a[j] == a[1..][j - 1];
          if i > 0 {
            assert a[i] == a[1..][i - 1];
          } else {
            assert a[j] in b[1..];
            var k :| 0 <= k < |b| - 1 && b[1..][k] == a[j];
            assert b[k + 1] == a[j];
          }
        }
      } else {
        SubsequenceKeepsKeysDistinct(a, b[1..]);
      }
    }
  }

  // ---------------------------------------------------------------------
  // The alphabetically ordered word list and its keys
  // ---------------------------------------------------------------------

  /** Every word of `s` is at least `h`. */
  ghost predicate AllAtLeast(h: string, s: seq<string>) {
    forall j :: 0 <= j < |s| ==> LessEq(h, s[j])
  }

  lemma {:induction false} SortedTail(s: seq<string>)
    requires Sorted(s) && s != []
    ensures Sorted(s[1..]) && AllAtLeast(s[0], s[1..])
  {
    assert forall j :: 0 <= j < |s| - 1 ==> s[1..][j] == s[j + 1];
  }

  lemma {:induction false} SortedCons(h: string, s: seq<string>)
    requires Sorted(s) && AllAtLeast(h, s)
    ensures Sorted([h] + s)
  {
    assert forall j :: 0 < j <= |s| ==> ([h] + s)[j] == s[j - 1];
  }

  /** A lower bound of the head of a sorted list bounds all of it. */
  lemma {:induction false} BelowHead(x: string, s: seq<string>)
    requires Sorted(s) && s != [] && LessEq(x, s[0])
    ensures AllAtLeast(x, s)
  {
    forall j | 0 <= j < |s| ensures LessEq(x, s[j]) {
      if j > 0 { LessEqTransitive(x, s[0], s[j]); }
    }
  }

  /** A lower bound of a list and of `x` bounds every reordering of them. */
  lemma {:induction false} AllAtLeastPermuted(h: string, x: string, s: seq<string>, r: seq<string>)
    requires AllAtLeast(h, s) && LessEq(h, x)
    requires multiset(r) == multiset(s) + multiset{x}
    ensures AllAtLeast(h, r)
  {
    forall j | 0 <= j < |r| ensures LessEq(h, r[j]) {
      assert r[j] in multiset(r);
      if r[j] != x {
        assert r[j] in multiset(s);
        var k :| 0 <= k < |s| && s[k] == r[j];
      }
    }
  }

  /** Puts `x` into the sorted list `s` at its place. */
  function Insert(x: string, s: seq<string>): (r: seq<string>)
    requires Sorted(s)
    ensures Sorted(r) && multiset(r) == multiset(s) + multiset{x}
    decreases |s|
  {
    if s == [] then [x]
    else if LessEq(x, s[0]) then
      BelowHead(x, s);
      SortedCons(x, s);
      [x] + s
    else
      SortedTail(s);
      var rest := Insert(x, s[1..]);
      LessEqTotal(x, s[0]);
      AllAtLeastPermuted(s[0], x, s[1..], rest);
      SortedCons(s[0], rest);
      assert s == [s[0]] + s[1..];
      [s[0]] + rest
  }

  /** `getAlphabeticallyOrderedList`: a sorted copy of the words. */
  function AlphabeticallyOrdered(arr: seq<string>): (r: seq<string>)
    ensures Sorted(r) && multiset(r) == multiset(arr)
    decreases |arr|
  {
    if arr == [] then []
    else
      assert arr == [arr[0]] + arr[1..];
      Insert(arr[0], AlphabeticallyOrdered(arr[1..]))
  }

  /**
   * `AlphabeticallyOrdered` is the sort: every sorted permutation of the
   * words is the list it returns.
   */
  lemma {:induction false} AlphabeticallyOrderedIsTheSort(arr: seq<string>, sorted: seq<string>)
    requires Sorted(sorted) && multiset(sorted) == multiset(arr)
    ensures sorted == AlphabeticallyOrdered(arr)
  {
    SortedUnique(sorted, AlphabeticallyOrdered(arr));
  }

  /** The key the template literal `${word}-${i}` produces. */
  function WordKeyOf(word: string, i: nat): (key: string)
    ensures AfterLastDash(key) == NatToString(i)
  {
    DigitsHaveNoDash(NatToString(i));
    AfterLastDashOf(word, NatToString(i));
    word + "-" + NatToString(i)
  }

  lemma {:induction false} DigitsHaveNoDash(d: string)
    requires forall k :: 0 <= k < |d| ==> '0' <= d[k] <= '9'
    ensures '-' !in d
  {
  }

  /** The part of a string after its last dash. */
  function AfterLastDash(s: string): string
    decreases |s|
  {
    if s == [] then []
    else if s[|s| - 1] == '-' then []
    else AfterLastDash(s[..|s| - 1]) + [s[|s| - 1]]
  }

  lemma {:induction false} AfterLastDashOf(w: string, d: string)
    requires '-' !in d
    ensures AfterLastDash(w + "-" + d) == d
    decreases |d|
  {
    var s := w + "-" + d;
    if d != [] {
      assert s[..|s| - 1] == w + "-" + d[..|d| - 1];
      assert d[|d| - 1] in d;
      AfterLastDashOf(w, d[..|d| - 1]);
    }
  }

  /** The key ends in the index: different indices give different keys. */
  lemma {:induction false} WordKeysDiffer(w1: string, i1: nat, w2: string, i2: nat)
    requires i1 != i2
    ensures WordKeyOf(w1, i1) != WordKeyOf(w2, i2)
  {
    if WordKeyOf(w1, i1) == WordKeyOf(w2, i2) {
      NatToStringInjective(i1, i2);
    }
  }

  /** The `wordList` of the page: the sorted words with their keys. */
  function OrderedWordList(splitMnemonic: seq<string>): (r: seq<WordKey>)
    ensures |r| == |splitMnemonic|
    ensures multiset(Words(r)) == multiset(splitMnemonic)
    ensures SortedByWord(r)
    ensures forall i :: 0 <= i < |r| ==> r[i].key == WordKeyOf(r[i].word, i)
    ensures KeysDistinct(r)
  {
    var sorted := AlphabeticallyOrdered(splitMnemonic);
    assert |sorted| == |splitMnemonic| by {
      assert |multiset(sorted)| == |multiset(splitMnemonic)|;
    }
    var r := seq(|sorted|, i requires 0 <= i < |sorted| => WordKey(sorted[i], WordKeyOf(sorted[i], i)));
    assert Words(r) == sorted;
    assert KeysDistinct(r) by {
      forall i, j | 0 <= i < j < |r| ensures r[i].key != r[j].key {
        WordKeysDiffer(sorted[i], i, sorted[j], j);
      }
    }
    r
  }

  // ---------------------------------------------------------------------
  // Filters over the selection
  // ---------------------------------------------------------------------

  /** The remaining-word list: word-list entries not yet selected. */
  function RemainingWords(wordList: seq<WordKey>, selected: seq<WordKey>): (r: seq<WordKey>)
    ensures forall w :: w in r <==> w in wordList && w !in selected
    decreases |wordList|
  {
    if wordList == [] then []
    else
      var rest := RemainingWords(wordList[1..], selected);
      assert forall w :: w in wordList <==> w == wordList[0] || w in wordList[1..];
      if wordList[0] !in selected then [wordList[0]] + rest
      else rest
  }

  /** The remaining words keep the word list's order. */
  lemma {:induction false} RemainingWordsSubsequence(wordList: seq<WordKey>, selected: seq<WordKey>)
    ensures Subsequence(RemainingWords(wordList, selected), wordList)
    decreases |wordList|
  {
    if wordList != [] {
      RemainingWordsSubsequence(wordList[1..], selected);
      var rest := RemainingWords(wordList[1..], selected);
      if wordList[0] !in selected {
        assert ([wordList[0]] + rest)[1..] == rest;
      } else if rest != [] {
        assert Subsequence(rest, wordList[1..]);
      }
    }
  }

  /** The remaining words are still in alphabetical order. */
  lemma {:induction false} RemainingWordsInOrder(wordList: seq<WordKey>, selected: seq<WordKey>)
    requires SortedByWord(wordList)
    ensures SortedByWord(RemainingWords(wordList, selected))
  {
    RemainingWordsSubsequence(wordList, selected);
    SubsequenceKeepsOrder(RemainingWords(wordList, selected), wordList);
  }

  /** The selection without the entries whose key is `key`. */
  function RemoveKey(ws: seq<WordKey>, key: string): (r: seq<WordKey>)
    ensures |r| <= |ws|
    ensures forall i :: 0 <= i < |r| ==> r[i].key != key
    decreases |ws|
  {
    if ws == [] then []
    else if ws[0].key != key then [ws[0]] + RemoveKey(ws[1..], key)
    else RemoveKey(ws[1..], key)
  }

  /** Removing by key drops exactly the entries with that key. */
  lemma {:induction false} RemoveKeyMembers(ws: seq<WordKey>, key: string)
    ensures forall w :: w in RemoveKey(ws, key) <==> w in ws && w.key != key
    decreases |ws|
  {
    if ws != [] {
      RemoveKeyMembers(ws[1..], key);
      assert forall w :: w in ws <==> w == ws[0] || w in ws[1..];
    }
  }

  /** ... and keeps the others in their order. */
  lemma {:induction false} RemoveKeySubsequence(ws: seq<WordKey>, key: string)
    ensures Subsequence(RemoveKey(ws, key), ws)
    decreases |ws|
  {
    if ws != [] {
      RemoveKeySubsequence(ws[1..], key);
      var rest := RemoveKey(ws[1..], key);
      if ws[0].key != key {
        assert ([ws[0]] + rest)[1..] == rest;
      } else if rest != [] {
        assert Subsequence(rest, ws[1..]);
      }
    }
  }

  lemma {:induction false} RemoveKeyAppend(a: seq<WordKey>, b: seq<WordKey>, key: string)
    ensures RemoveKey(a + b, key) == RemoveKey(a, key) + RemoveKey(b, key)
    decreases |a|
  {
    if a == [] {
      assert a + b == b;
    } else {
      RemoveKeyAppend(a[1..], b, key);
      assert (a + b)[0] == a[0] && (a + b)[1..] == a[1..] + b;
      if a[0].key != key {
        calc {
          RemoveKey(a + b, key);
          [a[0]] + RemoveKey(a[1..] + b, key);
          [a[0]] + (RemoveKey(a[1..], key) + RemoveKey(b, key));
          ([a[0]] + RemoveKey(a[1..], key)) + RemoveKey(b, key);
        }
      }
    }
  }

  lemma {:induction false} RemoveAbsentKey(ws: seq<WordKey>, key: string)
    requires forall i :: 0 <= i < |ws| ==> ws[i].key != key
    ensures RemoveKey(ws, key) == ws
    decreases |ws|
  {
    if ws != [] {
      RemoveAbsentKey(ws[1..], key);
    }
  }

  /** Removing the key of the one entry between two key-free parts leaves the parts. */
  lemma {:induction false} RemoveKeyAround(pre: seq<WordKey>, x: WordKey, post: seq<WordKey>)
    requires forall i :: 0 <= i < |pre| ==> pre[i].key != x.key
    requires forall i :: 0 <= i < |post| ==> post[i].key != x.key
    ensures RemoveKey(pre + [x] + post, x.key) == pre + post
  {
    RemoveAbsentKey(pre, x.key);
    RemoveAbsentKey(post, x.key);
    assert RemoveKey([x], x.key) == [];
    assert pre + [x] + post == pre + ([x] + post);
    RemoveKeyAppend(pre, [x] + post, x.key);
    RemoveKeyAppend([x], post, x.key);
  }

  /** With distinct keys, removing a present key drops exactly its one entry. */
  lemma {:induction false} RemoveKeyAt(ws: seq<WordKey>, c: nat)
    requires c < |ws| && KeysDistinct(ws)
    ensures RemoveKey(ws, ws[c].key) == ws[..c] + ws[c + 1..]
  {
    var pre, post := ws[..c], ws[c + 1..];
    forall i | 0 <= i < |pre| ensures pre[i].key != ws[c].key {
      assert pre[i] == ws[i];
    }
    forall i | 0 <= i < |post| ensures post[i].key != ws[c].key {
      assert post[i] == ws[c + 1 + i];
    }
    assert ws == pre + [ws[c]] + post;
    RemoveKeyAround(pre, ws[c], post);
  }

  /** `Array.prototype.findIndex` on keys: the first index holding `key`, or -1. */
  function FindIndex(ws: seq<WordKey>, key: string): (r: int)
    ensures -1 <= r < |ws|
    ensures r >= 0 ==> ws[r].key == key && forall i :: 0 <= i < r ==> ws[i].key != key
    ensures r == -1 ==> forall i :: 0 <= i < |ws| ==> ws[i].key != key
    decreases |ws|
  {
    if ws == [] then -1
    else if ws[0].key == key then 0
    else
      var r := FindIndex(ws[1..], key);
      assert forall i :: 0 < i < |ws| ==> ws[i] == ws[1..][i - 1];
      if r == -1 then -1 else r + 1
  }

  /** How `Array.prototype.slice` reads an index: negative counts from the end. */
  function SliceIndex(i: int, n: nat): (r: nat)
    ensures r <= n
    ensures 0 <= i <= n ==> r == i
    ensures i < 0 && n + i >= 0 ==> r == n + i
  {
    if i < 0 then (if n + i < 0 then 0 else n + i)
    else if i > n then n
    else i
  }

  /**
   * Where `handleSelectedWordDragEnd` puts the dragged word back into the
   * filtered selection: the neighbour's index, one less when moving to the
   * right, read the way `slice` reads it.
   */
  function InsertionIndex(selected: seq<WordKey>, word: WordKey, neighbourKey: string): (cut: nat)
    ensures cut <= |RemoveKey(selected, word.key)|
  {
    var currentIndex := FindIndex(selected, word.key);
    var newIndex := FindIndex(selected, neighbourKey);
    var newIndex' := if currentIndex < newIndex then newIndex - 1 else newIndex;
    SliceIndex(newIndex', |RemoveKey(selected, word.key)|)
  }

  /** `[...ws.slice(0, cut), word, ...ws.slice(cut)]` for an index within bounds. */
  function InsertAt(ws: seq<WordKey>, cut: nat, word: WordKey): seq<WordKey>
    requires cut <= |ws|
  {
    ws[..cut] + [word] + ws[cut..]
  }

  /** `handleSelectedWordDragEnd`'s reorder of the selection. */
  function MoveBefore(selected: seq<WordKey>, word: WordKey, neighbourKey: string): (r: seq<WordKey>)
    ensures |r| == |RemoveKey(selected, word.key)| + 1
    ensures FindIndex(r, word.key) == InsertionIndex(selected, word, neighbourKey)
    ensures r[InsertionIndex(selected, word, neighbourKey)] == word
  {
    var filtered := RemoveKey(selected, word.key);
    var cut := InsertionIndex(selected, word, neighbourKey);
    FindIndexOfInserted(filtered, cut, word);
    InsertAt(filtered, cut, word)
  }

  /** A word put into a list that lacks its key is found where it was put. */
  lemma {:induction false} FindIndexOfInserted(ws: seq<WordKey>, cut: nat, word: WordKey)
    requires cut <= |ws|
    requires forall i :: 0 <= i < |ws| ==> ws[i].key != word.key
    ensures InsertAt(ws, cut, word)[cut] == word
    ensures FindIndex(InsertAt(ws, cut, word), word.key) == cut
  {
    var r := InsertAt(ws, cut, word);
    assert r[cut] == word;
    forall i | 0 <= i < cut ensures r[i].key != word.key {
      assert r[i] == ws[i];
    }
  }

  lemma {:induction false} RemoveKeyInsertAt(ws: seq<WordKey>, cut: nat, word: WordKey)
    requires cut <= |ws|
    requires forall i :: 0 <= i < |ws| ==> ws[i].key != word.key
    ensures RemoveKey(InsertAt(ws, cut, word), word.key) == ws
  {
    var pre, post := ws[..cut], ws[cut..];
    forall i | 0 <= i < |pre| ensures pre[i].key != word.key {
      assert pre[i] == ws[i];
    }
    forall i | 0 <= i < |post| ensures post[i].key != word.key {
      assert post[i] == ws[cut + i];
    }
    RemoveKeyAround(pre, word, post);
    assert ws == pre + post;
  }

  lemma {:induction false} MultisetInsertAt(ws: seq<WordKey>, cut: nat, word: WordKey)
    requires cut <= |ws|
    ensures |InsertAt(ws, cut, word)| == |ws| + 1
    ensures multiset(InsertAt(ws, cut, word)) == multiset(ws) + multiset{word}
  {
    assert ws == ws[..cut] + ws[cut..];
  }

  /** The word put in front of its neighbour is found right before it. */
  lemma {:induction false} FindIndexInsertAt(ws: seq<WordKey>, cut: nat, word: WordKey, neighbourKey: string)
    requires cut < |ws| && KeysDistinct(ws)
    requires ws[cut].key == neighbourKey && neighbourKey != word.key
    requires forall i :: 0 <= i < |ws| ==> ws[i].key != word.key
    ensures var r := InsertAt(ws, cut, word);
            FindIndex(r, word.key) == cut && r[cut] == word && FindIndex(r, neighbourKey) == cut + 1
  {
    var r := InsertAt(ws, cut, word);
    assert r[cut] == word && r[cut + 1] == ws[cut];
    forall i | 0 <= i < cut ensures r[i].key != word.key && r[i].key != neighbourKey {
      assert r[i] == ws[i];
    }
    var k := FindIndex(r, word.key);
    var m := FindIndex(r, neighbourKey);
    assert k == cut;
    assert m == cut + 1;
  }

  /** Taking out entry `c` moves every later entry one place to the left. */
  lemma {:induction false} IndexAfterRemoval(ws: seq<WordKey>, c: nat, j: nat)
    requires c < |ws| && j < |ws| && c != j
    ensures var filtered := ws[..c] + ws[c + 1..];
            var j' := if c < j then j - 1 else j;
            j' < |filtered| && filtered[j'] == ws[j]
  {
  }

  /** The reorder never changes the order of the words other than `word`. */
  lemma {:induction false} MoveBeforeKeepsOthers(selected: seq<WordKey>, word: WordKey, neighbourKey: string)
    ensures RemoveKey(MoveBefore(selected, word, neighbourKey), word.key) == RemoveKey(selected, word.key)
  {
    var filtered := RemoveKey(selected, word.key);
    RemoveKeyMembers(selected, word.key);
    assert forall i :: 0 <= i < |filtered| ==> filtered[i] in filtered;
    RemoveKeyInsertAt(filtered, InsertionIndex(selected, word, neighbourKey), word);
  }

  lemma {:induction false} MultisetRemoveAt(ws: seq<WordKey>, c: nat)
    requires c < |ws|
    ensures multiset(ws[..c] + ws[c + 1..]) + multiset{ws[c]} == multiset(ws)
  {
    assert ws == ws[..c] + [ws[c]] + ws[c + 1..];
  }

  /** Moving a picked word is a permutation of the selection. */
  lemma {:induction false} MoveBeforePermutation(selected: seq<WordKey>, word: WordKey, neighbourKey: string)
    requires word in selected && KeysDistinct(selected)
    ensures |MoveBefore(selected, word, neighbourKey)| == |selected|
    ensures multiset(MoveBefore(selected, word, neighbourKey)) == multiset(selected)
  {
    var c :| 0 <= c < |selected| && selected[c] == word;
    RemoveKeyAt(selected, c);
    var filtered := RemoveKey(selected, word.key);
    var cut := InsertionIndex(selected, word, neighbourKey);
    assert MoveBefore(selected, word, neighbourKey) == InsertAt(filtered, cut, word);
    MultisetInsertAt(filtered, cut, word);
    MultisetRemoveAt(selected, c);
  }

  /** Putting a word with a fresh key into a list with distinct keys keeps them distinct. */
  lemma {:induction false} KeysDistinctInsert(ws: seq<WordKey>, cut: nat, word: WordKey)
    requires cut <= |ws| && KeysDistinct(ws)
    requires forall i :: 0 <= i < |ws| ==> ws[i].key != word.key
    ensures KeysDistinct(InsertAt(ws, cut, word))
  {
    var r := InsertAt(ws, cut, word);
    forall i, j | 0 <= i < j < |r| ensures r[i].key != r[j].key {
      var i' := if i < cut then i else i - 1;
      var j' := if j <= cut then j else j - 1;
      assert i < cut ==> r[i] == ws[i'];
      assert i > cut ==> r[i] == ws[i'];
      assert j < cut ==> r[j] == ws[j'];
      assert j > cut ==> r[j] == ws[j'];
    }
  }

  /** The result of the reorder keeps the keys distinct. */
  lemma {:induction false} MoveBeforeKeysDistinct(selected: seq<WordKey>, word: WordKey, neighbourKey: string)
    requires word in selected && KeysDistinct(selected)
    ensures KeysDistinct(MoveBefore(selected, word, neighbourKey))
  {
    var filtered := RemoveKey(selected, word.key);
    RemoveKeySubsequence(selected, word.key);
    RemoveKeyMembers(selected, word.key);
    SubsequenceKeepsKeysDistinct(filtered, selected);
    assert forall i :: 0 <= i < |filtered| ==> filtered[i] in filtered;
    KeysDistinctInsert(filtered, InsertionIndex(selected, word, neighbourKey), word);
  }

  /**
   * Dropped on a neighbour that is another picked word, the dragged word
   * lands immediately before that neighbour.
   */
  lemma {:induction false} MoveBeforePlacesWord(selected: seq<WordKey>, word: WordKey, neighbourKey: string)
    requires word in selected && KeysDistinct(selected)
    requires neighbourKey != word.key
    requires exists j :: 0 <= j < |selected| && selected[j].key == neighbourKey
    ensures var r := MoveBefore(selected, word, neighbourKey);
            var k := FindIndex(r, word.key);
            0 <= k && r[k] == word && FindIndex(r, neighbourKey) == k + 1
  {
    var c := FindIndex(selected, word.key);
    var j := FindIndex(selected, neighbourKey);
    assert c >= 0 && selected[c] == word by {
      var c' :| 0 <= c' < |selected| && selected[c'] == word;
    }
    assert j >= 0;
    var filtered := RemoveKey(selected, word.key);
    RemoveKeyAt(selected, c);
    IndexAfterRemoval(selected, c, j);
    var cut := InsertionIndex(selected, word, neighbourKey);
    assert cut == if c < j then j - 1 else j;
    RemoveKeySubsequence(selected, word.key);
    SubsequenceKeepsKeysDistinct(filtered, selected);
    RemoveKeyMembers(selected, word.key);
    assert forall i :: 0 <= i < |filtered| ==> filtered[i] in filtered;
    FindIndexInsertAt(filtered, cut, word, neighbourKey);
  }

  /**
   * When the neighbour key names no picked word, `findIndex` gives -1 and
   * `slice(0, -1)` puts the dragged word just before the last other word.
   */
  lemma {:induction false} MoveBeforeUnknownNeighbour(selected: seq<WordKey>, word: WordKey, neighbourKey: string)
    requires forall i :: 0 <= i < |selected| ==> selected[i].key != neighbourKey
    requires |RemoveKey(selected, word.key)| >= 1
    ensures var filtered := RemoveKey(selected, word.key);
            var n := |filtered|;
            MoveBefore(selected, word, neighbourKey) == filtered[..n - 1] + [word, filtered[n - 1]]
  {
    var filtered := RemoveKey(selected, word.key);
    var n := |filtered|;
    assert FindIndex(selected, neighbourKey) == -1;
    assert InsertionIndex(selected, word, neighbourKey) == n - 1;
    assert MoveBefore(selected, word, neighbourKey) == InsertAt(filtered, n - 1, word);
    assert filtered[n - 1..] == [filtered[n - 1]];
    assert InsertAt(filtered, n - 1, word) == filtered[..n - 1] + [word, filtered[n - 1]];
  }

  /** An entry of a list holding the words of a comma-free mnemonic holds no comma. */
  lemma {:induction false} EntryWithoutComma(mnemonic: string, wordList: seq<WordKey>, x: WordKey)
    requires ',' !in mnemonic
    requires multiset(Words(wordList)) == multiset(Split(mnemonic, ' '))
    requires x in wordList
    ensures ',' !in x.word
  {
    var splitMnemonic := Split(mnemonic, ' ');
    var k :| 0 <= k < |wordList| && wordList[k] == x;
    assert Words(wordList)[k] == x.word;
    assert x.word in multiset(splitMnemonic);
    var m :| 0 <= m < |splitMnemonic| && splitMnemonic[m] == x.word;
    PiecesOfSplitAreInside(mnemonic, ' ', m, ',');
  }

  /** Words picked from the word list of a comma-free mnemonic hold no comma. */
  lemma {:induction false} PickedWordsWithoutCommas(mnemonic: string, wordList: seq<WordKey>, selected: seq<WordKey>)
    requires ',' !in mnemonic
    requires multiset(Words(wordList)) == multiset(Split(mnemonic, ' '))
    requires forall w :: w in selected ==> w in wordList
    ensures forall i :: 0 <= i < |selected| ==> ',' !in selected[i].word
  {
    forall i | 0 <= i < |selected| ensures ',' !in selected[i].word {
      assert selected[i] in selected;
      EntryWithoutComma(mnemonic, wordList, selected[i]);
    }
  }

  // ---------------------------------------------------------------------
  // The validity test
  // ---------------------------------------------------------------------

  /** `areWordsValid`: the comma-joined picked words equal the comma-joined mnemonic. */
  predicate AreWordsValid(selected: seq<WordKey>, splitMnemonic: seq<string>): (valid: bool)
    ensures Words(selected) == splitMnemonic ==> valid
  {
    Join(Words(selected), ',') == Join(splitMnemonic, ',')
  }

  /**
   * For a mnemonic without commas, the test holds exactly when the picked
   * words are the mnemonic's words in order, except that an empty mnemonic
   * (which splits into one empty word) is also matched by no pick at all.
   */
  lemma {:induction false} AreWordsValidMeansInOrder(selected: seq<WordKey>, mnemonic: string)
    requires ',' !in mnemonic
    requires forall i :: 0 <= i < |selected| ==> ',' !in selected[i].word
    ensures AreWordsValid(selected, Split(mnemonic, ' '))
            <==> Words(selected) == Split(mnemonic, ' ') || (selected == [] && mnemonic == "")
  {
    var split := Split(mnemonic, ' ');
    JoinSplit(mnemonic, ' ');
    assert forall i :: 0 <= i < |split| ==> ',' !in split[i] by {
      forall i | 0 <= i < |split| ensures ',' !in split[i] {
        PiecesOfSplitAreInside(mnemonic, ' ', i, ',');
      }
    }
    if selected == [] {
      if AreWordsValid(selected, split) {
        SplitJoin(split, ',');
        assert Split("", ',') == [""];
        assert split == [""];
        assert mnemonic == Join([""], ' ') == "";
      }
    } else {
      if AreWordsValid(selected, split) {
        JoinInjective(Words(selected), split, ',');
      }
    }
  }

  /** A character missing from a string is missing from each of its pieces. */
  lemma {:induction false} PiecesOfSplitAreInside(s: string, sep: char, i: nat, c: char)
    requires c !in s && i < |Split(s, sep)|
    ensures c !in Split(s, sep)[i]
    decreases |s|
  {
    if s != [] {
      var rest := Split(s[1..], sep);
      assert c !in s[1..];
      if s[0] == sep {
        if i > 0 { PiecesOfSplitAreInside(s[1..], sep, i - 1, c); }
      } else {
        PiecesOfSplitAreInside(s[1..], sep, i, c);
      }
    }
  }

  // ---------------------------------------------------------------------
  // The page's state
  // ---------------------------------------------------------------------

  class CheckWordsSession {
    const mnemonic: string
    const splitMnemonic: seq<string>
    const wordList: seq<WordKey>
    var selected: seq<WordKey>
    /** The `selectedElements` ref map: key to rendered element, or null. */
    var elements: map<string, Option<ElementRef>>
    var isDragging: bool
    var closestWordKey: string

    /** Every picked word comes from the word list, once. */
    ghost predicate Valid()
      reads this
    {
      && splitMnemonic == Split(mnemonic, ' ')
      && wordList == OrderedWordList(splitMnemonic)
      && (forall w :: w in selected ==> w in wordList)
      && KeysDistinct(selected)
    }

    constructor (mnemonic: string)
      ensures Valid()
      ensures this.mnemonic == mnemonic && selected == []
      ensures elements == map w | w in Split(mnemonic, ' ') :: None
      ensures !isDragging && closestWordKey == ""
    {
      this.mnemonic := mnemonic;
      var split := Split(mnemonic, ' ');
      splitMnemonic := split;
      wordList := OrderedWordList(split);
      selected := [];
      elements := map w | w in split :: None;
      isDragging := false;
      closestWordKey := "";
    }

    /** The words still offered for picking, in alphabetical order. */
    function Remaining(): (r: seq<WordKey>)
      requires Valid()
      reads this
      ensures forall w :: w in r <==> w in wordList && w !in selected
      ensures SortedByWord(r)
    {
      RemainingWordsInOrder(wordList, selected);
      RemainingWords(wordList, selected)
    }

    /** Clicking a remaining word appends it to the selection. */
    method SelectWord(w: WordKey)
      requires Valid() && w in Remaining()
      modifies this`selected
      ensures Valid()
      ensures selected == old(selected) + [w]
    {
      AppendKeepsKeysDistinct(selected, wordList, w);
      selected := selected + [w];
    }

    /**
     * `handleSelectedWordRemove`: a pointer-up that ends a drag only clears
     * the drag flag; otherwise the word leaves the selection and its element
     * entry is cleared.
     */
    method RemoveSelectedWord(w: WordKey)
      requires Valid()
      modifies this`selected, this`elements, this`isDragging
      ensures Valid()
      ensures old(isDragging) ==> !isDragging && selected == old(selected) && elements == old(elements)
      ensures !old(isDragging) ==> isDragging == old(isDragging)
      ensures !old(isDragging) ==> selected == RemoveKey(old(selected), w.key)
      ensures !old(isDragging) ==> elements == old(elements)[w.key := None]
    {
      if isDragging {
        isDragging := false;
        return;
      }
      RemoveKeySubsequence(selected, w.key);
      RemoveKeyMembers(selected, w.key);
      SubsequenceKeepsKeysDistinct(RemoveKey(selected, w.key), selected);
      selected := RemoveKey(selected, w.key);
      elements := elements[w.key := None];
    }

    /** The element ref callback: a mounted element is recorded under its key. */
    method RegisterElement(key: string, element: Option<ElementRef>)
      modifies this`elements
      ensures element.Some? ==> elements == old(elements)[key := element]
      ensures element.None? ==> elements == old(elements)
    {
      if element.Some? {
        elements := elements[key := element];
      }
    }

    /** `onDragStart`. */
    method StartDrag()
      modifies this`isDragging
      ensures isDragging
    {
      isDragging := true;
    }

    /**
     * The throttled drag handler's outcome: the key of the nearest other
     * element, or "" when there is none. The geometric search is left out.
     */
    method SetClosestWordKey(key: string)
      modifies this`closestWordKey
      ensures closestWordKey == key
    {
      closestWordKey := key;
    }

    /**
     * `handleSelectedWordDragEnd` as the drag end of `word` calls it, with
     * the closest key as the neighbour key.
     */
    method DragEnd(word: WordKey)
      requires Valid() && word in selected
      modifies this`selected, this`closestWordKey
      ensures Valid()
      ensures old(closestWordKey) == "" ==> selected == old(selected) && closestWordKey == ""
      ensures old(closestWordKey) != "" ==>
                selected == MoveBefore(old(selected), word, old(closestWordKey)) && closestWordKey == ""
      ensures multiset(selected) == multiset(old(selected))
    {
      if closestWordKey != "" {
        ghost var before := selected;
        MoveBeforePermutation(selected, word, closestWordKey);
        MoveBeforeKeysDistinct(selected, word, closestWordKey);
        selected := MoveBefore(selected, word, closestWordKey);
        closestWordKey := "";
        forall w | w in selected ensures w in wordList {
          assert w in multiset(selected);
          assert w in before;
        }
      }
    }

    /**
     * `createEncryptedWallet`'s guard: the wallet is encrypted and saved
     * only when the words are valid and the SDK wallet exists.
     */
    method CreateEncryptedWallet(plainWallet: Option<PlainWallet>) returns (saved: bool)
      requires Valid()
      ensures saved <==> AreWordsValid(selected, splitMnemonic) && plainWallet.Some?
      ensures saved && ',' !in mnemonic && mnemonic != "" ==>
                Words(selected) == Split(mnemonic, ' ')
    {
      saved := AreWordsValid(selected, splitMnemonic) && plainWallet.Some?;
      if ',' !in mnemonic {
        PickedWordsWithoutCommas(mnemonic, wordList, selected);
        AreWordsValidMeansInOrder(selected, mnemonic);
      }
    }
  }
}
