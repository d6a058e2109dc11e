/** The four-character page identifiers both scrapers enumerate with four
    nested loops, one alphabet per character position, and the page
    addresses built from them. */
module Ids {
  import opened Seqs

  /** The `n` consecutive characters from `lo`, as Python's
      `string.ascii_uppercase` and `string.digits` list them. */
  function CharRange(lo: char, n: nat): (r: string)
    requires lo as int + n <= 0xD800
    ensures |r| == n && forall k :: 0 <= k < n ==> r[k] as int == lo as int + k
  {
    seq(n, k requires 0 <= k < n => (lo as int + k) as char)
  }

  /** A character range lists each character of the range once. */
  lemma CharRangeExact(lo: char, n: nat)
    requires lo as int + n <= 0xD800
    ensures Distinct(CharRange(lo, n))
    ensures forall ch :: ch in CharRange(lo, n) <==> lo <= ch && (ch as int) < lo as int + n
  {
    var r := CharRange(lo, n);
    forall ch | lo <= ch && (ch as int) < lo as int + n ensures ch in r {
      assert r[ch as int - lo as int] == ch;
    }
  }

  const Uppercase: string := CharRange('A', 26)
  const Digits: string := CharRange('0', 10)

  /** Every word of `ws` extended by each letter of `alphabet` in turn, word
      by word: one more nested loop inside the enumeration of `ws`. */
  function Extend(ws: seq<string>, alphabet: string): (r: seq<string>) {
    if ws == [] then [] else Extend(ws[..|ws| - 1], alphabet) + Suffixed(ws[|ws| - 1], alphabet)
  }

  /** `w` followed by each letter of `alphabet`, in alphabet order. */
  function Suffixed(w: string, alphabet: string): (r: seq<string>)
    ensures |r| == |alphabet| && forall k :: 0 <= k < |alphabet| ==> r[k] == w + [alphabet[k]]
  {
    seq(|alphabet|, k requires 0 <= k < |alphabet| => w + [alphabet[k]])
  }

  /** The enumeration the four nested loops produce. */
  function Words4(a: string, b: string, c: string, d: string): seq<string> {
    Extend(Extend(Extend(Suffixed("", a), b), c), d)
  }

  lemma {:induction false} ExtendConcat(x: seq<string>, y: seq<string>, alphabet: string)
    ensures Extend(x + y, alphabet) == Extend(x, alphabet) + Extend(y, alphabet)
    decreases |y|
  {
    if y == [] {
      assert x + y == x;
    } else {
      var y' := y[..|y| - 1];
      assert (x + y)[..|x + y| - 1] == x + y';
      ExtendConcat(x, y', alphabet);
    }
  }

  lemma ExtendOne(w: string, alphabet: string)
    ensures Extend([w], alphabet) == Suffixed(w, alphabet)
  {
    assert [w][..0] == [];
  }

  /** The count of an extension is the product of the counts. */
  lemma {:induction false} ExtendCount(ws: seq<string>, alphabet: string)
    ensures |Extend(ws, alphabet)| == |ws| * |alphabet|
  {
    if ws != [] {
      var init := ws[..|ws| - 1];
      ExtendCount(init, alphabet);
      assert |Extend(ws, alphabet)| == |Extend(init, alphabet)| + |alphabet|;
      assert (|ws| - 1) * |alphabet| + |alphabet| == |ws| * |alphabet|;
    }
  }

  /** A word is in the extension iff it is a word of `ws` followed by a
      letter of the alphabet. */
  lemma {:induction false} ExtendMembers(ws: seq<string>, alphabet: string, v: string)
    ensures v in Extend(ws, alphabet) <==> |v| >= 1 && v[..|v| - 1] in ws && v[|v| - 1] in alphabet
  {
    if ws != [] {
      var init, last := ws[..|ws| - 1], ws[|ws| - 1];
      ExtendMembers(init, alphabet, v);
      var s := Suffixed(last, alphabet);
      if |v| >= 1 && v[..|v| - 1] == last && v[|v| - 1] in alphabet {
        var k :| 0 <= k < |alphabet| && alphabet[k] == v[|v| - 1];
        assert v == s[k];
      }
      if v in s {
        var k :| 0 <= k < |s| && s[k] == v;
        assert v[..|v| - 1] == last;
      }
      assert forall u :: u in init ==> u in ws;
      if |v| >= 1 && v[..|v| - 1] in ws && v[..|v| - 1] != last {
        var i :| 0 <= i < |ws| && ws[i] == v[..|v| - 1];
        assert i < |ws| - 1 && init[i] == ws[i];
      }
    }
  }

  /** Distinct words extended by distinct letters stay distinct. */
  lemma {:induction false} ExtendDistinct(ws: seq<string>, alphabet: string)
    requires Distinct(ws) && Distinct(alphabet)
    ensures Distinct(Extend(ws, alphabet))
  {
    if ws != [] {
      var init, last := ws[..|ws| - 1], ws[|ws| - 1];
      assert Distinct(init) by {
        forall i, j | 0 <= i < j < |init| ensures init[i] != init[j] {
          assert init[i] == ws[i] && init[j] == ws[j];
        }
      }
      ExtendDistinct(init, alphabet);
      var front, s := Extend(init, alphabet), Suffixed(last, alphabet);
      assert Distinct(s) by {
        forall i, j | 0 <= i < j < |s| ensures s[i] != s[j] {
          assert s[i][|last|] == alphabet[i] && s[j][|last|] == alphabet[j];
        }
      }
      assert last !in init by {
        forall i | 0 <= i < |init| ensures init[i] != last {
          assert init[i] == ws[i];
        }
      }
      forall i, j | 0 <= i < |front| && 0 <= j < |s| ensures front[i] != s[j] {
        ExtendMembers(init, alphabet, front[i]);
        assert front[i] in front;
        assert s[j][..|s[j]| - 1] == last;
      }
      DistinctConcat(front, s);
    }
  }

  /** The one-letter words of the outermost loop. */
  lemma SinglesMembers(a: string, v: string)
    ensures v in Suffixed("", a) <==> |v| == 1 && v[0] in a
  {
    if |v| == 1 && v[0] in a {
      var k :| 0 <= k < |a| && a[k] == v[0];
      assert Suffixed("", a)[k] == v;
    }
  }

  /** The enumeration has |a|·|b|·|c|·|d| words; a word is in it iff it has
      four letters, the k-th from the k-th alphabet; and with alphabets
      without repeated letters no word is listed twice. */
  lemma Words4Exact(a: string, b: string, c: string, d: string)
    ensures |Words4(a, b, c, d)| == |a| * |b| * |c| * |d|
    ensures forall w :: w in Words4(a, b, c, d) <==>
      |w| == 4 && w[0] in a && w[1] in b && w[2] in c && w[3] in d
    ensures Distinct(a) && Distinct(b) && Distinct(c) && Distinct(d) ==> Distinct(Words4(a, b, c, d))
  {
    Words4Count(a, b, c, d);
    forall w ensures w in Words4(a, b, c, d) <==> |w| == 4 && w[0] in a && w[1] in b && w[2] in c && w[3] in d {
      Words4Member(a, b, c, d, w);
    }
    if Distinct(a) && Distinct(b) && Distinct(c) && Distinct(d) {
      Words4Distinct(a, b, c, d);
    }
  }

  lemma Words4Count(a: string, b: string, c: string, d: string)
    ensures |Words4(a, b, c, d)| == |a| * |b| * |c| * |d|
  {
    var w1 := Suffixed("", a);
    var w2 := Extend(w1, b);
    var w3 := Extend(w2, c);
    ExtendCount(w1, b);
    ExtendCount(w2, c);
    ExtendCount(w3, d);
  }

  lemma Words4Member(a: string, b: string, c: string, d: string, w: string)
    ensures w in Words4(a, b, c, d) <==> |w| == 4 && w[0] in a && w[1] in b && w[2] in c && w[3] in d
  {
    var w1 := Suffixed("", a);
    var w2 := Extend(w1, b);
    var w3 := Extend(w2, c);
    ExtendMembers(w3, d, w);
    if |w| >= 1 {
      var u := w[..|w| - 1];
      ExtendMembers(w2, c, u);
      if |u| >= 1 {
        var t := u[..|u| - 1];
        ExtendMembers(w1, b, t);
        if |t| >= 1 {
          SinglesMembers(a, t[..|t| - 1]);
          if |w| == 4 {
            assert t == [w[0], w[1]] && u == [w[0], w[1], w[2]];
            assert t[..|t| - 1] == [w[0]];
          }
        }
      }
    }
  }

  lemma Words4Distinct(a: string, b: string, c: string, d: string)
    requires Distinct(a) && Distinct(b) && Distinct(c) && Distinct(d)
    ensures Distinct(Words4(a, b, c, d))
  {
    var w1 := Suffixed("", a);
    var w2 := Extend(w1, b);
    var w3 := Extend(w2, c);
    assert Distinct(w1) by {
      forall i, j | 0 <= i < j < |w1| ensures w1[i] != w1[j] {
        assert w1[i][0] == a[i] && w1[j][0] == a[j];
      }
    }
    ExtendDistinct(w1, b);
    ExtendDistinct(w2, c);
    ExtendDistinct(w3, d);
  }

  /** The step of the innermost loop: one more letter of the alphabet. */
  lemma SuffixedStep(w: string, alphabet: string, k: nat)
    requires k < |alphabet|
    ensures Suffixed(w, alphabet[..k + 1]) == Suffixed(w, alphabet[..k]) + [w + [alphabet[k]]]
  {
  }

  /** The step of the third loop: one more letter `c[k]` adds the block of
      the innermost loop. */
  lemma ThirdStep(w: string, c: string, k: nat, d: string)
    requires k < |c|
    ensures Extend(Suffixed(w, c[..k + 1]), d) == Extend(Suffixed(w, c[..k]), d) + Suffixed(w + [c[k]], d)
  {
    SuffixedStep(w, c, k);
    ExtendConcat(Suffixed(w, c[..k]), [w + [c[k]]], d);
    ExtendOne(w + [c[k]], d);
  }

  /** The step of the second loop. */
  lemma SecondStep(w: string, b: string, j: nat, c: string, d: string)
    requires j < |b|
    ensures Extend(Extend(Suffixed(w, b[..j + 1]), c), d) ==
      Extend(Extend(Suffixed(w, b[..j]), c), d) + Extend(Suffixed(w + [b[j]], c), d)
  {
    SuffixedStep(w, b, j);
    ExtendConcat(Suffixed(w, b[..j]), [w + [b[j]]], c);
    ExtendOne(w + [b[j]], c);
    ExtendConcat(Extend(Suffixed(w, b[..j]), c), Suffixed(w + [b[j]], c), d);
  }

  lemma SecondStepAfter(x: char, b: string, j: nat, c: string, d: string)
    requires j < |b|
    ensures Extend(Extend(Suffixed([x], b[..j + 1]), c), d) ==
      Extend(Extend(Suffixed([x], b[..j]), c), d) + Extend(Suffixed([x, b[j]], c), d)
  {
    SecondStep([x], b, j, c, d);
    assert [x] + [b[j]] == [x, b[j]];
  }

  /** The step of the outermost loop. */
  lemma FirstStep(a: string, i: nat, b: string, c: string, d: string)
    requires i < |a|
    ensures Extend(Extend(Extend(Suffixed("", a[..i + 1]), b), c), d) ==
      Extend(Extend(Extend(Suffixed("", a[..i]), b), c), d) + Extend(Extend(Suffixed([a[i]], b), c), d)
  {
    SuffixedStep("", a, i);
    assert "" + [a[i]] == [a[i]];
    ExtendConcat(Suffixed("", a[..i]), [[a[i]]], b);
    ExtendOne([a[i]], b);
    ExtendConcat(Extend(Suffixed("", a[..i]), b), Suffixed([a[i]], b), c);
    ExtendConcat(Extend(Extend(Suffixed("", a[..i]), b), c), Extend(Suffixed([a[i]], b), c), d);
  }

  /** The four nested loops of the scrapers (Optimized.py:85-92 and
      make_dataset.py:80-85), one alphabet per character position; the
      inner loops are `AppendMiddle` and `AppendInner`. */
  method Combinations(a: string, b: string, c: string, d: string) returns (combinations: seq<string>)
    ensures combinations == Words4(a, b, c, d)
  {
    combinations := [];
    for i := 0 to |a|
      invariant combinations == Extend(Extend(Extend(Suffixed("", a[..i]), b), c), d)
    {
      FirstStep(a, i, b, c, d);
      combinations := AppendMiddle(combinations, a[i], b, c, d);
    }
    assert a[..|a|] == a;
  }

  /** The second loop for the first letter `x`. */
  method AppendMiddle(combinations: seq<string>, x: char, b: string, c: string, d: string) returns (r: seq<string>)
    ensures r == combinations + Extend(Extend(Suffixed([x], b), c), d)
  {
    r := combinations;
    for j := 0 to |b|
      invariant r == combinations + Extend(Extend(Suffixed([x], b[..j]), c), d)
    {
      ghost var done := Extend(Extend(Suffixed([x], b[..j]), c), d);
      ghost var block := Extend(Suffixed([x, b[j]], c), d);
      SecondStepAfter(x, b, j, c, d);
      r := AppendInner(r, x, b[j], c, d);
      ConcatAssoc(combinations, done, block);
    }
    assert b[..|b|] == b;
  }

  /** The two inner loops for the first letters `x` and `y`. */
  method AppendInner(combinations: seq<string>, x: char, y: char, c: string, d: string) returns (r: seq<string>)
    ensures r == combinations + Extend(Suffixed([x, y], c), d)
  {
    r := combinations;
    for k := 0 to |c|
      invariant r == combinations + Extend(Suffixed([x, y], c[..k]), d)
    {
      r := AppendLast(r, x, y, c[k], d);
      ThirdStep([x, y], c, k, d);
      assert [x, y] + [c[k]] == [x, y, c[k]];
    }
    assert c[..|c|] == c;
  }

  /** The innermost loop for the first letters `x`, `y` and `z`. */
  method AppendLast(combinations: seq<string>, x: char, y: char, z: char, d: string) returns (r: seq<string>)
    ensures r == combinations + Suffixed([x, y, z], d)
  {
    r := combinations;
    for l := 0 to |d|
      invariant r == combinations + Suffixed([x, y, z], d[..l])
    {
      SuffixedStep([x, y, z], d, l);
      assert [x, y, z] + [d[l]] == [x, y, z, d[l]];
      r := r + [[x, y, z, d[l]]];
    }
    assert d[..|d|] == d;
  }

  /** `[f'{url}{combination}' for combination in combinations]`. */
  function Urls(prefix: string, combinations: seq<string>): (urls: seq<string>)
    ensures |urls| == |combinations|
    ensures forall k :: 0 <= k < |urls| ==> urls[k] == prefix + combinations[k]
  {
    seq(|combinations|, k requires 0 <= k < |combinations| => prefix + combinations[k])
  }

  /** Distinct identifiers give distinct addresses, each ending in its
      identifier after the fixed prefix. */
  lemma UrlsDistinct(prefix: string, combinations: seq<string>)
    requires Distinct(combinations)
    ensures Distinct(Urls(prefix, combinations))
    ensures forall k :: 0 <= k < |combinations| ==>
      Urls(prefix, combinations)[k][..|prefix|] == prefix && Urls(prefix, combinations)[k][|prefix|..] == combinations[k]
  {
    var urls := Urls(prefix, combinations);
    forall i, j | 0 <= i < j < |urls| ensures urls[i] != urls[j] {
      assert urls[i][|prefix|..] == combinations[i];
      assert urls[j][|prefix|..] == combinations[j];
    }
  }
}
