/** Ingredient normalisation: each name is trimmed and lower-cased, and repeated names are
    dropped. `RecipeService` applies it to the list it sends to the model, and the cache key
    is computed over the set of normalised names, so neither order, case, surrounding
    spaces nor repetition distinguishes two requests. */
module Ingredients {
  import opened Text

  function NormalizeIngredient(s: string): (r: string)
    ensures IsTrimmed(r)
    ensures forall i :: 0 <= i < |r| ==> !('A' <= r[i] <= 'Z')
  {
    ToLowerKeepsTrimmed(Trim(s));
    ToLower(Trim(s))
  }

  /** Normalising a normalised name changes nothing. */
  lemma NormalizeIngredientIdempotent(s: string)
    ensures NormalizeIngredient(NormalizeIngredient(s)) == NormalizeIngredient(s)
  {
    var n := NormalizeIngredient(s);
    TrimOfTrimmed(n);
    ToLowerIdempotent(Trim(s));
  }

  /** The set of normalised names of `xs`: what identifies an ingredient list. */
  function NormalizedSet(xs: seq<string>): set<string> {
    set x | x in xs :: NormalizeIngredient(x)
  }

  predicate NoDuplicates(s: seq<string>) {
    forall i, j :: 0 <= i < j < |s| ==> s[i] != s[j]
  }

  /** `s` with every repeated element dropped (Java's `stream().distinct()`): the same
      members, each once. */
  function Distinct(s: seq<string>): (r: seq<string>)
    ensures NoDuplicates(r)
    ensures forall x :: x in r <==> x in s
    ensures |r| <= |s|
  {
    if |s| == 0 then []
    else
      var init := Distinct(s[..|s| - 1]);
      var last := s[|s| - 1];
      assert s == s[..|s| - 1] + [last];
      if last in init then init else init + [last]
  }

  /** Each name of `xs` normalised, in order. */
  function NormalizeEach(xs: seq<string>): (r: seq<string>)
    ensures |r| == |xs|
    ensures forall i :: 0 <= i < |xs| ==> r[i] == NormalizeIngredient(xs[i])
  {
    seq(|xs|, i requires 0 <= i < |xs| => NormalizeIngredient(xs[i]))
  }

  /** The list `RecipeService` sends to the model. */
  function NormalizeIngredients(xs: seq<string>): (r: seq<string>)
    ensures NoDuplicates(r)
    ensures forall x :: x in r <==> x in NormalizedSet(xs)
    ensures |r| <= |xs|
  {
    NormalizeEachMembers(xs);
    Distinct(NormalizeEach(xs))
  }

  lemma NormalizeEachMembers(xs: seq<string>)
    ensures forall x :: x in NormalizeEach(xs) <==> x in NormalizedSet(xs)
  {
    var each := NormalizeEach(xs);
    forall x ensures x in each <==> x in NormalizedSet(xs) {
      if x in each {
        var i :| 0 <= i < |each| && each[i] == x;
        assert xs[i] in xs;
      }
      if x in NormalizedSet(xs) {
        var y :| y in xs && x == NormalizeIngredient(y);
        var i :| 0 <= i < |xs| && xs[i] == y;
        assert each[i] == x;
      }
    }
  }

  /** Every name in the normalised list is itself normalised... */
  lemma NormalizedNamesAreNormal(xs: seq<string>, x: string)
    requires x in NormalizeIngredients(xs)
    ensures NormalizeIngredient(x) == x
  {
    var y :| y in xs && x == NormalizeIngredient(y);
    NormalizeIngredientIdempotent(y);
  }

  /** ...so normalising the list a second time (as the cache key does) identifies the same
      ingredients as the original list. */
  lemma NormalizedSetOfNormalized(xs: seq<string>)
    ensures NormalizedSet(NormalizeIngredients(xs)) == NormalizedSet(xs)
  {
    var ys := NormalizeIngredients(xs);
    forall x | x in NormalizedSet(ys) ensures x in NormalizedSet(xs) {
      var y :| y in ys && x == NormalizeIngredient(y);
      NormalizedNamesAreNormal(xs, y);
    }
    forall x | x in NormalizedSet(xs) ensures x in NormalizedSet(ys) {
      assert x in ys;
      NormalizedNamesAreNormal(xs, x);
    }
  }

  /** The list sent to the model holds exactly one entry per distinct normalised ingredient
      (five entries naming three ingredients give three). */
  lemma NormalizedCount(xs: seq<string>)
    ensures |NormalizeIngredients(xs)| == |NormalizedSet(xs)|
  {
    var r := NormalizeIngredients(xs);
    NoDuplicatesCard(r);
    assert (set x | x in r) == NormalizedSet(xs);
  }

  lemma {:induction false} NoDuplicatesCard(r: seq<string>)
    requires NoDuplicates(r)
    ensures |set x | x in r| == |r|
  {
    if |r| > 0 {
      var init := r[..|r| - 1];
      var last := r[|r| - 1];
      assert r == init + [last];
      NoDuplicatesCard(init);
      assert (set x | x in r) == (set x | x in init) + {last};
      assert last !in (set x | x in init);
    }
  }

  /** A name that is already trimmed and lower case is its own normal form. */
  lemma NormalFixed(s: string)
    requires IsTrimmed(s)
    requires forall i :: 0 <= i < |s| ==> !('A' <= s[i] <= 'Z')
    ensures NormalizeIngredient(s) == s
  {
    TrimOfTrimmed(s);
  }

  /** Five entries naming three normalised ingredients, with repeats, are sent as three. */
  lemma RepeatsDropped(a: string, b: string, c: string)
    requires NormalizeIngredient(a) == a && NormalizeIngredient(b) == b && NormalizeIngredient(c) == c
    requires a != b && b != c && a != c
    ensures |NormalizeIngredients([a, a, b, b, c])| == 3
  {
    var xs := [a, a, b, b, c];
    forall w ensures w in NormalizedSet(xs) <==> w in {a, b, c} {
      if w in NormalizedSet(xs) {
        var v :| v in xs && w == NormalizeIngredient(v);
      }
      if w in {a, b, c} {
        assert w in xs;
      }
    }
    ThreeNames(xs, a, b, c);
  }

  /** Appending a name adds its normal form to the set. */
  lemma NormalizedSetSnoc(xs: seq<string>, x: string)
    ensures NormalizedSet(xs + [x]) == NormalizedSet(xs) + {NormalizeIngredient(x)}
  {
    forall w | w in NormalizedSet(xs + [x]) ensures w in NormalizedSet(xs) + {NormalizeIngredient(x)} {
      var i :| 0 <= i < |xs + [x]| && w == NormalizeIngredient((xs + [x])[i]);
      if i < |xs| {
        assert (xs + [x])[i] == xs[i];
      }
    }
    forall w | w in NormalizedSet(xs) ensures w in NormalizedSet(xs + [x]) {
      var i :| 0 <= i < |xs| && w == NormalizeIngredient(xs[i]);
      assert (xs + [x])[i] == xs[i];
    }
    assert (xs + [x])[|xs|] == x;
  }

  lemma ThreeSnocs<T>(x: T, y: T, z: T)
    ensures [x, y, z] == [x, y] + [z] && [x, y] == [x] + [y] && [x] == [] + [x]
  {
  }

  lemma NormalizedSetEmpty()
    ensures NormalizedSet([]) == {}
  {
  }

  lemma UnionOfThree(a: string, b: string, c: string)
    ensures {} + {a} + {b} + {c} == {a, b, c}
  {
  }

  /** A list naming exactly three distinct ingredients is sent as those three. */
  lemma ThreeNames(xs: seq<string>, a: string, b: string, c: string)
    requires NormalizedSet(xs) == {a, b, c}
    requires a != b && b != c && a != c
    ensures var r := NormalizeIngredients(xs);
            |r| == 3 && forall w :: w in r <==> w in {a, b, c}
  {
    NormalizedCount(xs);
    ThreeOf(NormalizeIngredients(xs), NormalizedSet(xs), a, b, c);
  }

  /** A list with exactly the members of a three-element set, and as long as it, has three
      entries. */
  lemma ThreeOf(r: seq<string>, names: set<string>, a: string, b: string, c: string)
    requires |r| == |names| && forall w :: w in r <==> w in names
    requires names == {a, b, c} && a != b && b != c && a != c
    ensures |r| == 3 && forall w :: w in r <==> w in {a, b, c}
  {
    ThreeDistinct(a, b, c);
  }

  lemma ThreeDistinct(a: string, b: string, c: string)
    requires a != b && b != c && a != c
    ensures |{a, b, c}| == 3
  {
    var ab := {a} + {b};
    assert b !in {a};
    assert |ab| == 2;
    assert c !in ab;
    assert {a, b, c} == ab + {c};
  }

  /** Chicken, garlic and olive oil, given twice, twice and once, are sent once each. */
  lemma ChickenGarlicOilDropped()
    ensures |NormalizeIngredients(["chicken", "chicken", "garlic", "garlic", "olive oil"])| == 3
  {
    NormalFixed("chicken");
    NormalFixed("garlic");
    NormalFixed("olive oil");
    RepeatsDropped("chicken", "garlic", "olive oil");
  }

  /** Three names are sent as their three normal forms, in some order, once each. */
  lemma ThreeNamesNormalized(x: string, y: string, z: string, a: string, b: string, c: string)
    requires NormalizeIngredient(x) == a && NormalizeIngredient(y) == b && NormalizeIngredient(z) == c
    requires a != b && b != c && a != c
    ensures var r := NormalizeIngredients([x, y, z]);
            |r| == 3 && forall w :: w in r <==> w in {a, b, c}
  {
    var xs := [x, y, z];
    ThreeSnocs(x, y, z);
    NormalizedSetSnoc([], x);
    NormalizedSetSnoc([x], y);
    NormalizedSetSnoc([x, y], z);
    NormalizedSetEmpty();
    UnionOfThree(a, b, c);
    ThreeNames(xs, a, b, c);
  }

  /** A name padded with spaces is sent as the name in lower case. */
  lemma PaddedNormalized(pad: string, w: string)
    requires AllSpace(pad) && w != [] && IsTrimmed(w)
    ensures NormalizeIngredient(pad + w + pad) == ToLower(w)
  {
    PaddedTrim(pad, w, pad);
  }

  /** "  CHICKEN  " is sent as "chicken". */
  lemma ChickenNormalized()
    ensures NormalizeIngredient("  CHICKEN  ") == "chicken"
  {
    assert "  CHICKEN  " == "  " + "CHICKEN" + "  ";
    PaddedNormalized("  ", "CHICKEN");
    LowerChicken();
  }

  lemma LowerChicken()
    ensures ToLower("CHICKEN") == "chicken"
  {
    var u := ToLower("CHICKEN");
    assert u[0] == 'c' && u[1] == 'h' && u[2] == 'i' && u[3] == 'c' && u[4] == 'k' && u[5] == 'e' && u[6] == 'n';
  }

  /** "  Garlic  " is sent as "garlic". */
  lemma GarlicNormalized()
    ensures NormalizeIngredient("  Garlic  ") == "garlic"
  {
    assert "  Garlic  " == "  " + "Garlic" + "  ";
    PaddedNormalized("  ", "Garlic");
    LowerGarlic();
  }

  lemma LowerGarlic()
    ensures ToLower("Garlic") == "garlic"
  {
    var u := ToLower("Garlic");
    assert u[0] == 'g' && u[1] == 'a' && u[2] == 'r' && u[3] == 'l' && u[4] == 'i' && u[5] == 'c';
  }
}
