/** Class attributes as sets of tokens, and the three class helpers the view
    calls (`amp-has-class`, `amp-add-class`, `amp-remove-class`), abstracted
    as set operations on the space-separated tokens of their argument. */
module ClassList {

  type Classes = set<string>

  predicate NoSpace(w: string)
  {
    forall i :: 0 <= i < |w| ==> w[i] != ' '
  }

  /** A single class name: non-empty, without a space. */
  predicate IsToken(w: string)
  {
    w != [] && NoSpace(w)
  }

  /** The length of the run of non-space characters `s` starts with. */
  function WordLen(s: string): (n: nat)
    ensures n <= |s|
    ensures NoSpace(s[..n])
    ensures n < |s| ==> s[n] == ' '
    ensures s != [] && s[0] != ' ' ==> n > 0
  {
    if s == [] || s[0] == ' ' then 0
    else
      var m := WordLen(s[1..]);
      assert s[..m + 1] == [s[0]] + s[1..][..m];
      m + 1
  }

  /** The class names a class string denotes: its maximal runs of non-space
      characters. */
  function Tokens(s: string): (t: set<string>)
    ensures forall w :: w in t ==> IsToken(w)
    decreases |s|
  {
    if s == [] then {}
    else if s[0] == ' ' then Tokens(s[1..])
    else
      var n := WordLen(s);
      {s[..n]} + Tokens(s[n..])
  }

  /** The library's answer to `hasClass(el, name)` when `name` is not a single
      class name; the model does not fix it. */
  type MultiTokenMatcher = (Classes, string) -> bool

  /** `hasClass(el, name)`: membership for a single class name, the library's
      matcher otherwise. */
  predicate HasClass(classes: Classes, name: string, multi: MultiTokenMatcher)
    ensures IsToken(name) ==> (HasClass(classes, name, multi) <==> name in classes)
  {
    if IsToken(name) then name in classes else multi(classes, name)
  }

  /** `addClass(el, names)`: every name of `names` is present afterwards, no
      class is lost, and every class gained is one of those names. */
  function AddClass(classes: Classes, names: string): (r: Classes)
    ensures classes <= r
    ensures forall w :: w in Tokens(names) ==> w in r
    ensures forall w :: w in r && w !in classes ==> w in Tokens(names) && IsToken(w)
  {
    classes + Tokens(names)
  }

  /** `removeClass(el, names)`: no name of `names` is present afterwards and
      every other class stays. */
  function RemoveClass(classes: Classes, names: string): (r: Classes)
    ensures r <= classes
    ensures forall w :: w in Tokens(names) ==> w !in r
    ensures forall w :: w in classes && w !in Tokens(names) ==> w in r
  {
    classes - Tokens(names)
  }

  /** After `addClass(el, names)` the element has each single name of `names`,
      and after `removeClass(el, names)` it has none of them. */
  lemma AddRemoveHasClass(classes: Classes, names: string, w: string, multi: MultiTokenMatcher)
    requires w in Tokens(names)
    ensures HasClass(AddClass(classes, names), w, multi)
    ensures !HasClass(RemoveClass(classes, names), w, multi)
  {
  }

  lemma {:induction false} WordLenOfWord(w: string, rest: string)
    requires NoSpace(w)
    ensures WordLen(w + " " + rest) == |w|
  {
    if w != [] {
      assert (w + " " + rest)[1..] == w[1..] + " " + rest;
      WordLenOfWord(w[1..], rest);
    }
  }

  /** A single class name denotes exactly itself. */
  lemma TokensOfToken(w: string)
    requires IsToken(w)
    ensures Tokens(w) == {w}
  {
    assert WordLen(w) == |w|;
    assert w[..|w|] == w;
    assert w[|w|..] == [];
  }

  /** A class name followed by a space contributes exactly itself. */
  lemma TokensOfWord(w: string, rest: string)
    requires IsToken(w)
    ensures Tokens(w + " " + rest) == {w} + Tokens(rest)
  {
    var s := w + " " + rest;
    WordLenOfWord(w, rest);
    assert s[..|w|] == w;
    assert s[|w|..] == " " + rest;
    assert (" " + rest)[1..] == rest;
  }

  /** Class names written one after another with single spaces. */
  function Join(ws: seq<string>): string
  {
    if ws == [] then "" else if |ws| == 1 then ws[0] else ws[0] + " " + Join(ws[1..])
  }

  /** Class names written with single spaces denote exactly themselves. */
  lemma {:induction false} TokensOfJoin(ws: seq<string>)
    requires forall i :: 0 <= i < |ws| ==> IsToken(ws[i])
    ensures Tokens(Join(ws)) == set w | w in ws
  {
    if |ws| == 1 {
      TokensOfToken(ws[0]);
      assert (set w | w in ws) == {ws[0]};
    } else if |ws| > 1 {
      TokensOfJoin(ws[1..]);
      TokensOfWord(ws[0], Join(ws[1..]));
      assert ws == [ws[0]] + ws[1..];
      assert (set w | w in ws) == {ws[0]} + (set w | w in ws[1..]);
    }
  }

  /** The names `reEnableButtons` removes: `'disabled ' + disabledClass`. */
  lemma ReEnableNames(disabledClass: string)
    ensures Tokens("disabled " + disabledClass) == {"disabled"} + Tokens(disabledClass)
  {
    assert IsToken("disabled");
    assert "disabled " + disabledClass == "disabled" + " " + disabledClass;
    TokensOfWord("disabled", disabledClass);
  }

  /** The names `disableButtons` adds:
      `'disabled disabled-by-btnView ' + disabledClass`. */
  lemma DisableNames(disabledClass: string)
    ensures Tokens("disabled disabled-by-btnView " + disabledClass)
         == {"disabled", "disabled-by-btnView"} + Tokens(disabledClass)
  {
    var tail := "disabled-by-btnView " + disabledClass;
    assert IsToken("disabled");
    assert IsToken("disabled-by-btnView");
    assert "disabled disabled-by-btnView " + disabledClass == "disabled" + " " + tail;
    assert tail == "disabled-by-btnView" + " " + disabledClass;
    TokensOfWord("disabled", tail);
    TokensOfWord("disabled-by-btnView", disabledClass);
  }
}
