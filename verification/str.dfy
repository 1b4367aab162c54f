/**
 * String helpers (`Alexya\Tools\Str`): prefix, suffix and substring tests,
 * and the word-array forms of `snake` and `camel`. PHP strings are byte
 * strings; case mapping is restricted to ASCII.
 */
module Str {
  import opened Wrappers

  /** `n` occurs in `h` starting at index `i`. */
  predicate Occurs(h: string, n: string, i: int)
  {
    0 <= i && i + |n| <= |h| && h[i..i + |n|] == n
  }

  /** `n` occurs somewhere in `h` as a contiguous substring. */
  ghost predicate IsSubstring(n: string, h: string)
  {
    exists i :: Occurs(h, n, i)
  }

  /** `n` is a suffix of `h`. */
  ghost predicate IsSuffix(n: string, h: string)
  {
    |n| <= |h| && h[|h| - |n|..] == n
  }

  /** PHP's `strpos($h, $n, $from)`: the first occurrence starting at or after `from`. */
  function Strpos(h: string, n: string, from: nat): (r: Option<nat>)
    requires from <= |h|
    ensures r.Some? ==> from <= r.value && Occurs(h, n, r.value)
    ensures r.Some? ==> forall j :: from <= j < r.value ==> !Occurs(h, n, j)
    ensures r.None? ==> forall j :: from <= j ==> !Occurs(h, n, j)
    decreases |h| - from
  {
    if from + |n| > |h| then None
    else if h[from..from + |n|] == n then Some(from)
    else Strpos(h, n, from + 1)
  }

  /** The last occurrence of `n` in `h` starting at or before `j`. */
  function LastAtOrBefore(h: string, n: string, j: int): (r: Option<nat>)
    ensures r.Some? ==> r.value <= j && Occurs(h, n, r.value)
    ensures r.Some? ==> forall k :: r.value < k <= j ==> !Occurs(h, n, k)
    ensures r.None? ==> forall k :: k <= j ==> !Occurs(h, n, k)
    decreases j + 1
  {
    if j < 0 then None
    else if Occurs(h, n, j) then Some(j)
    else LastAtOrBefore(h, n, j - 1)
  }

  /**
   * PHP's `strrpos($h, $n, $offset)` for a non-positive offset: the last
   * occurrence that ends within the first `|h| + offset + |n|` bytes, or
   * anywhere when `-offset < |n|`. PHP raises an error for `-offset > |h|`.
   */
  function Strrpos(h: string, n: string, offset: int): (r: Option<nat>)
    requires -|h| <= offset <= 0
    ensures r.Some? ==> r.value <= |h| + offset && Occurs(h, n, r.value)
    ensures r.Some? ==> forall k :: r.value < k <= |h| + offset ==> !Occurs(h, n, k)
    ensures r.None? ==> forall k :: k <= |h| + offset ==> !Occurs(h, n, k)
  {
    LastAtOrBefore(h, n, if -offset < |n| then |h| - |n| else |h| + offset)
  }

  /** `startsWith($base, $starts)`: `""` starts every string, a longer needle none. */
  function StartsWith(base: string, starts: string): (r: bool)
    ensures starts == "" ==> r
    ensures |starts| > |base| ==> !r
  {
    starts == "" || Strrpos(base, starts, -|base|).Some?
  }

  /** `startsWith` holds exactly when `starts` is a prefix of `base`. */
  lemma StartsWithIsPrefix(base: string, starts: string)
    ensures StartsWith(base, starts) <==> starts <= base
  {
    if starts != "" {
      if |starts| <= |base| {
        assert starts <= base <==> Occurs(base, starts, 0);
      } else {
        assert !(starts <= base);
      }
    }
  }

  /** `endsWith($base, $ends)`: `""` ends every string, a longer needle none. */
  function EndsWith(base: string, ends: string): (r: bool)
    ensures ends == "" ==> r
    ensures |ends| > |base| ==> !r
  {
    if ends == "" then true
    else
      var temp := |base| - |ends|;
      temp >= 0 && Strpos(base, ends, temp).Some?
  }

  /** `endsWith` holds exactly when `ends` is a suffix of `base`. */
  lemma EndsWithIsSuffix(base: string, ends: string)
    ensures EndsWith(base, ends) <==> IsSuffix(ends, base)
    ensures |ends| > |base| ==> !EndsWith(base, ends)
  {
    if ends != "" && |ends| <= |base| {
      var temp := |base| - |ends|;
      assert IsSuffix(ends, base) <==> Occurs(base, ends, temp);
    }
  }

  /** The needle of `contains`: a string, an array of needles, or any other PHP value. */
  datatype Needle = Text(s: string) | Many(items: seq<Needle>) | Other

  /**
   * `contains($str, $chars)`. An array is searched element by element; when
   * no element matches, control falls through to the `is_string` test, which
   * an array fails. Only a string is searched with `strpos`.
   */
  function Contains(str: string, chars: Needle): (r: bool)
    ensures chars.Text? ==> (r <==> Strpos(str, chars.s, 0).Some?)
    ensures chars.Many? ==> (r <==> exists i :: 0 <= i < |chars.items| && Contains(str, chars.items[i]))
    ensures chars.Other? ==> !r
    decreases chars, 1
  {
    match chars
    case Many(_) => ContainsFrom(str, chars, 0)
    case Other => false
    case Text(c) => Strpos(str, c, 0).Some?
  }

  /** The `foreach` of `contains` over the elements of `chars` from index `i` on. */
  function ContainsFrom(str: string, chars: Needle, i: nat): (r: bool)
    requires chars.Many? && i <= |chars.items|
    ensures r <==> exists j :: i <= j < |chars.items| && Contains(str, chars.items[j])
    decreases chars, 0, |chars.items| - i
  {
    if i == |chars.items| then false
    else Contains(str, chars.items[i]) || ContainsFrom(str, chars, i + 1)
  }

  /**
   * `contains` with a string needle holds exactly when it is a substring
   * (the empty needle is found at index 0, as in PHP 8); with an array it
   * holds exactly when some element is contained, so never for `[]`.
   */
  lemma ContainsIsSubstring(str: string, chars: Needle)
    ensures chars.Text? ==> (Contains(str, chars) <==> IsSubstring(chars.s, str))
    ensures chars == Many([]) ==> !Contains(str, chars)
  {
    if chars.Text? {
      var r := Strpos(str, chars.s, 0);
      if r.Some? {
        assert Occurs(str, chars.s, r.value);
      }
    }
  }

  // ---------------------------------------------------------------------
  // Case conversion of word arrays

  /** PHP 8's `strtolower` on one byte: ASCII letters only. */
  function LowerChar(c: char): char
  {
    if 'A' <= c <= 'Z' then (c as int + 32) as char else c
  }

  /** PHP 8's `strtoupper` on one byte: ASCII letters only. */
  function UpperChar(c: char): char
  {
    if 'a' <= c <= 'z' then (c as int - 32) as char else c
  }

  /** `strtolower`. */
  function Lower(s: string): (r: string)
    ensures |r| == |s|
  {
    seq(|s|, i requires 0 <= i < |s| => LowerChar(s[i]))
  }

  /** `ucfirst`: the first byte upper-cased, the rest unchanged. */
  function UcFirst(s: string): (r: string)
  {
    if |s| == 0 then s else [UpperChar(s[0])] + s[1..]
  }

  /** `implode($glue, $pieces)`. */
  function Implode(glue: string, pieces: seq<string>): string
    decreases |pieces|
  {
    if |pieces| == 0 then ""
    else if |pieces| == 1 then pieces[0]
    else pieces[0] + glue + Implode(glue, pieces[1..])
  }

  /** `explode` on a one-byte separator: the inverse the snake-case form is read back with. */
  function Explode(sep: char, s: string): (parts: seq<string>)
    ensures |parts| >= 1
    decreases |s|
  {
    if |s| == 0 then [""]
    else
      var rest := Explode(sep, s[1..]);
      if s[0] == sep then [""] + rest else [[s[0]] + rest[0]] + rest[1..]
  }

  /** No word of `words` contains the byte `c`. */
  predicate Free(words: seq<string>, c: char)
  {
    forall i :: 0 <= i < |words| ==> c !in words[i]
  }

  /** The array branch of `snake`: the words joined by `_`, lower-cased. */
  function Snake(words: seq<string>): (r: string)
    ensures forall i :: 0 <= i < |r| ==> !('A' <= r[i] <= 'Z')
    ensures |words| == 0 ==> r == ""
    ensures |words| == 1 ==> r == Lower(words[0])
  {
    Lower(Implode("_", words))
  }

  /** The concatenation of `words`. */
  function Concat(words: seq<string>): (r: string)
    decreases |words|
  {
    if |words| == 0 then "" else words[0] + Concat(words[1..])
  }

  /** Every word of `words` lower-cased. */
  function LowerAll(words: seq<string>): (r: seq<string>)
    ensures |r| == |words|
    ensures forall i :: 0 <= i < |words| ==> r[i] == Lower(words[i])
  {
    seq(|words|, i requires 0 <= i < |words| => Lower(words[i]))
  }

  /** The later words of a camel-case form: each word `ucfirst`-ed, concatenated. */
  function CamelTail(words: seq<string>): string
    decreases |words|
  {
    if |words| == 0 then "" else UcFirst(words[0]) + CamelTail(words[1..])
  }

  /** The camel-case form of a non-empty word array: the first word, then every later word `ucfirst`-ed. */
  function CamelOf(words: seq<string>): string
    requires |words| > 0
  {
    words[0] + CamelTail(words[1..])
  }

  /** Appending a word to the array appends its `ucfirst` form to the tail. */
  lemma {:induction false} CamelTailAppend(words: seq<string>, w: string)
    ensures CamelTail(words + [w]) == CamelTail(words) + UcFirst(w)
    decreases |words|
  {
    if |words| > 0 {
      assert (words + [w])[1..] == words[1..] + [w];
      CamelTailAppend(words[1..], w);
    } else {
      assert [w][1..] == [];
    }
  }

  /** One iteration of the camel-case loop appends `ucfirst` of the next word. */
  lemma CamelStep(first: string, done: seq<string>, w: string)
    ensures first + CamelTail(done) + UcFirst(w) == first + CamelTail(done + [w])
  {
    CamelTailAppend(done, w);
  }

  /**
   * The array branch of the camel-case method (declared as a second `snake`
   * in the source): `$ret = $str[0]`, then `ucfirst` of every later word
   * appended. An empty array makes `$str[0]` null, which the `string` return
   * type rejects.
   */
  method Camel(words: seq<string>) returns (r: Option<string>)
    ensures r.None? <==> |words| == 0
    ensures r.Some? ==> r.value == CamelOf(words)
  {
    if |words| == 0 {
      return None;
    }
    var ret := words[0];
    var i := 1;
    while i < |words|
      invariant 1 <= i <= |words|
      invariant ret == words[0] + CamelTail(words[1..i])
    {
      assert words[1..i + 1] == words[1..i] + [words[i]];
      CamelStep(words[0], words[1..i], words[i]);
      ret := ret + UcFirst(words[i]);
      i := i + 1;
    }
    assert words[1..i] == words[1..];
    return Some(ret);
  }

  // ---------------------------------------------------------------------
  // Properties of the word-array forms

  /** Lower-casing works byte by byte. */
  lemma LowerAppend(a: string, b: string)
    ensures Lower(a + b) == Lower(a) + Lower(b)
  {
  }

  /** Lower-casing never produces or removes an underscore. */
  lemma LowerKeepsUnderscores(w: string)
    ensures '_' in Lower(w) <==> '_' in w
  {
    if '_' in Lower(w) {
      var i :| 0 <= i < |w| && Lower(w)[i] == '_';
      assert w[i] == '_';
    }
    if '_' in w {
      var i :| 0 <= i < |w| && w[i] == '_';
      assert Lower(w)[i] == '_';
    }
  }

  /** The snake-case form is the lower-cased words joined by `_`. */
  lemma {:induction false} SnakeLowersWords(words: seq<string>)
    ensures Snake(words) == Implode("_", LowerAll(words))
    decreases |words|
  {
    if |words| > 1 {
      SnakeLowersWords(words[1..]);
      assert LowerAll(words)[1..] == LowerAll(words[1..]);
      LowerAppend(words[0] + "_", Implode("_", words[1..]));
      LowerAppend(words[0], "_");
    }
  }

  /** Exploding a string that starts with a separator-free word. */
  lemma {:induction false} ExplodeWord(sep: char, w: string, t: string)
    requires sep !in w
    ensures Explode(sep, w + t) == [w + Explode(sep, t)[0]] + Explode(sep, t)[1..]
    decreases |w|
  {
    if |w| > 0 {
      assert (w + t)[1..] == w[1..] + t;
      ExplodeWord(sep, w[1..], t);
      assert [w[0]] + (w[1..] + Explode(sep, t)[0]) == w + Explode(sep, t)[0];
    } else {
      var e := Explode(sep, t);
      assert w + t == t && w + e[0] == e[0];
      assert [e[0]] + e[1..] == e;
    }
  }

  /** `explode` undoes `implode` when no word contains the separator. */
  lemma {:induction false} ExplodeImplode(sep: char, words: seq<string>)
    requires |words| >= 1 && Free(words, sep)
    ensures Explode(sep, Implode([sep], words)) == words
    decreases |words|
  {
    if |words| == 1 {
      ExplodeWord(sep, words[0], "");
      assert words[0] + "" == words[0] && Explode(sep, "") == [""];
      assert words == [words[0]];
    } else {
      var t := Implode([sep], words[1..]);
      assert Implode([sep], words) == words[0] + [sep] + t;
      ExplodeImplode(sep, words[1..]);
      assert Explode(sep, [sep] + t) == [""] + Explode(sep, t);
      assert words[0] + [sep] + t == words[0] + ([sep] + t);
      ExplodeWord(sep, words[0], [sep] + t);
      var e := Explode(sep, [sep] + t);
      assert e[0] == "" && e[1..] == words[1..];
      assert words[0] + e[0] == words[0];
      assert words == [words[0]] + words[1..];
    }
  }

  /**
   * Reading the snake-case form back: splitting it at `_` gives the
   * lower-cased words, for a non-empty array of words without `_`.
   */
  lemma SnakeRoundTrip(words: seq<string>)
    requires |words| >= 1 && Free(words, '_')
    ensures Explode('_', Snake(words)) == LowerAll(words)
  {
    SnakeLowersWords(words);
    forall i | 0 <= i < |words|
      ensures '_' !in LowerAll(words)[i]
    {
      LowerKeepsUnderscores(words[i]);
    }
    ExplodeImplode('_', LowerAll(words));
  }

  /** `ucfirst` changes nothing but the case of the first byte. */
  lemma LowerUcFirst(w: string)
    ensures Lower(UcFirst(w)) == Lower(w)
  {
  }

  /** Up to case, the tail of a camel-case form is the plain concatenation of its words. */
  lemma {:induction false} CamelTailIgnoringCase(words: seq<string>)
    ensures Lower(CamelTail(words)) == Lower(Concat(words))
    decreases |words|
  {
    if |words| > 0 {
      CamelTailIgnoringCase(words[1..]);
      LowerAppend(UcFirst(words[0]), CamelTail(words[1..]));
      LowerAppend(words[0], Concat(words[1..]));
      LowerUcFirst(words[0]);
    }
  }

  /**
   * Up to case, the camel-case form is the plain concatenation of the words:
   * the method changes no byte but the first letter of each later word.
   */
  lemma CamelIgnoringCase(words: seq<string>)
    requires |words| > 0
    ensures Lower(CamelOf(words)) == Lower(Concat(words))
  {
    CamelTailIgnoringCase(words[1..]);
    LowerAppend(words[0], CamelTail(words[1..]));
    LowerAppend(words[0], Concat(words[1..]));
  }

  /** The documented example of `snake`: `["users", "orm"]` gives `users_orm`. */
  lemma SnakeExample()
    ensures Snake(["users", "orm"]) == "users_orm"
  {
    assert Implode("_", ["users", "orm"]) == "users_orm";
  }

  /** The documented example of `camel`: `["users", "orm"]` gives `usersOrm`. */
  lemma CamelExample()
    ensures CamelOf(["users", "orm"]) == "usersOrm"
  {
    assert UpperChar('o') == 'O';
    assert UcFirst("orm") == "Orm";
    assert CamelTail(["orm"]) == "Orm" + CamelTail([]);
  }
}
