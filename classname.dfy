/**
 * addCssSelectorToElement and removeCssSelectorFromElement as functions
 * from an element's className to its new className, and what they do to
 * the space-separated class tokens.
 */
module ClassName {
  import opened Text

  /** The marker class put on an item while something is dragged over it. */
  const HOVERED := "hovered"

  /** `p` holds no whitespace character. */
  predicate NoWhitespace(p: string) {
    forall i :: 0 <= i < |p| ==> !IsWhitespace(p[i])
  }

  /** A single class name: non-empty and without whitespace. */
  predicate IsToken(sel: string) {
    sel != "" && NoWhitespace(sel)
  }

  /** The only whitespace character in `s`, if any, is the space. */
  ghost predicate SpacesOnly(s: string) {
    forall i :: 0 <= i < |s| && IsWhitespace(s[i]) ==> s[i] == ' '
  }

  /** parts.filter(p => p !== x): the parts other than `x`, in order. */
  function Without(parts: seq<string>, x: string): (r: seq<string>)
    ensures |r| <= |parts|
    ensures forall p :: p in r <==> p in parts && p != x
  {
    if parts == [] then []
    else (if parts[0] == x then [] else [parts[0]]) + Without(parts[1..], x)
  }

  /** The class tokens of a className split at spaces: its non-empty pieces, in order. */
  function Tokens(className: string): seq<string> {
    Without(Split(className, ' '), "")
  }

  /**
   * addCssSelectorToElement (:132-140) on an element whose className is
   * `className`: an empty className counts as absent, and the substring
   * test decides whether `sel` is appended after a space.
   */
  function AddClass(className: string, sel: string): (r: string)
    ensures className == "" ==> r == ""
    ensures Contains(className, sel) ==> r == className
    ensures className != "" ==> Contains(r, sel)
    ensures |className| <= |r| && r[..|className|] == className
  {
    if className != "" && SubstringIndex(className, sel) == -1 then
      var r := className + " " + sel;
      OccursAfter(className + " ", sel, sel, 0);
      assert r == (className + " ") + sel;
      r
    else className
  }

  /**
   * removeCssSelectorFromElement (:148-158) on an element whose className is
   * `className`: when `sel` occurs as a substring, split at spaces, drop the
   * pieces equal to `sel`, join with spaces and trim.
   */
  function RemoveClass(className: string, sel: string): (r: string)
    ensures !Contains(className, sel) ==> r == className
    ensures Contains(className, sel) ==> r == [] || (!IsWhitespace(r[0]) && !IsWhitespace(r[|r| - 1]))
  {
    if SubstringIndex(className, sel) > -1 then Trim(Join(Without(Split(className, ' '), sel), ' '))
    else className
  }

  lemma {:induction false} WithoutConcat(a: seq<string>, b: seq<string>, x: string)
    ensures Without(a + b, x) == Without(a, x) + Without(b, x)
  {
    if a != [] {
      var h := if a[0] == x then [] else [a[0]];
      assert (a + b)[0] == a[0] && (a + b)[1..] == a[1..] + b;
      WithoutConcat(a[1..], b, x);
      calc {
        Without(a + b, x);
        h + Without(a[1..] + b, x);
        h + (Without(a[1..], x) + Without(b, x));
        (h + Without(a[1..], x)) + Without(b, x);
      }
    } else {
      assert a + b == b;
    }
  }

  lemma {:induction false} WithoutCommute(parts: seq<string>, x: string, y: string)
    ensures Without(Without(parts, x), y) == Without(Without(parts, y), x)
  {
    if parts != [] {
      var h := parts[0];
      WithoutCommute(parts[1..], x, y);
      WithoutConcat(if h == x then [] else [h], Without(parts[1..], x), y);
      WithoutConcat(if h == y then [] else [h], Without(parts[1..], y), x);
    }
  }

  lemma {:induction false} WithoutAbsent(parts: seq<string>, x: string)
    requires x !in parts
    ensures Without(parts, x) == parts
  {
    if parts != [] {
      WithoutAbsent(parts[1..], x);
    }
  }

  /** A leading space adds only an empty piece. */
  lemma TokensLeadingSpace(s: string)
    requires s != [] && s[0] == ' '
    ensures Tokens(s) == Tokens(s[1..])
  {
  }

  /** A trailing space adds only an empty piece. */
  lemma TokensTrailingSpace(s: string)
    requires s != [] && s[|s| - 1] == ' '
    ensures Tokens(s) == Tokens(s[..|s| - 1])
  {
    var t := s[..|s| - 1];
    assert s == t + [' '] + "";
    SplitAround(t, "", ' ');
    WithoutConcat(Split(t, ' '), [""], "");
  }

  lemma {:induction false} TokensTrimStart(s: string)
    requires SpacesOnly(s)
    ensures Tokens(TrimStart(s)) == Tokens(s)
  {
    if s != [] && IsWhitespace(s[0]) {
      TokensLeadingSpace(s);
      TokensTrimStart(s[1..]);
    }
  }

  lemma {:induction false} TokensTrimEnd(s: string)
    requires SpacesOnly(s)
    ensures Tokens(TrimEnd(s)) == Tokens(s)
  {
    if s != [] && IsWhitespace(s[|s| - 1]) {
      TokensTrailingSpace(s);
      TokensTrimEnd(s[..|s| - 1]);
    }
  }

  /** When the only whitespace is spaces, trimming leaves the class tokens alone. */
  lemma TokensTrim(s: string)
    requires SpacesOnly(s)
    ensures Tokens(Trim(s)) == Tokens(s)
  {
    TokensTrimStart(s);
    TokensTrimEnd(TrimStart(s));
  }

  /** The pieces of a space split of a SpacesOnly string hold no whitespace. */
  lemma {:induction false} SplitPiecesNoWhitespace(s: string)
    requires SpacesOnly(s)
    ensures forall p :: p in Split(s, ' ') ==> NoWhitespace(p)
  {
    if s != [] {
      SplitPiecesNoWhitespace(s[1..]);
      var rest := Split(s[1..], ' ');
      if s[0] != ' ' {
        assert NoWhitespace([s[0]] + rest[0]) by {
          assert rest[0] in rest;
        }
      }
    }
  }

  /** A join with spaces of whitespace-free pieces has spaces as its only whitespace. */
  lemma {:induction false} JoinSpacesOnly(parts: seq<string>)
    requires forall p :: p in parts ==> NoWhitespace(p)
    ensures SpacesOnly(Join(parts, ' '))
  {
    if |parts| > 1 {
      JoinSpacesOnly(parts[1..]);
      assert parts[0] in parts;
      var a, b := parts[0] + [' '], Join(parts[1..], ' ');
      assert Join(parts, ' ') == a + b;
    } else if |parts| == 1 {
      assert parts[0] in parts;
    }
  }

  /** The tokens of a space join of space-free pieces are its non-empty pieces. */
  lemma TokensJoin(parts: seq<string>)
    requires forall p :: p in parts ==> ' ' !in p
    ensures Tokens(Join(parts, ' ')) == Without(parts, "")
  {
    if parts != [] {
      SplitJoin(parts, ' ');
    }
  }

  /** A token equal to `sel` makes `sel` a substring, so `sel` passes the guard of either helper. */
  lemma TokenOccurs(className: string, sel: string)
    requires sel in Tokens(className)
    ensures Contains(className, sel)
  {
    SplitPieceOccurs(className, ' ', sel);
  }

  /**
   * Removing a class drops exactly the tokens equal to `sel` and keeps the
   * others in their order (for a className whose only whitespace is spaces).
   */
  lemma RemoveClassTokens(className: string, sel: string)
    requires SpacesOnly(className)
    ensures Tokens(RemoveClass(className, sel)) == Without(Tokens(className), sel)
  {
    var pieces := Split(className, ' ');
    if Contains(className, sel) {
      var kept := Without(pieces, sel);
      var joined := Join(kept, ' ');
      SplitPiecesNoWhitespace(className);
      JoinSpacesOnly(kept);
      TokensTrim(joined);
      TokensJoin(kept);
      WithoutCommute(pieces, sel, "");
    } else {
      if sel in Tokens(className) {
        TokenOccurs(className, sel);
      }
      WithoutAbsent(Tokens(className), sel);
    }
  }

  /** Removing a class name twice is removing it once. */
  lemma RemoveClassIdempotent(className: string, sel: string)
    requires SpacesOnly(className) && sel != ""
    ensures RemoveClass(RemoveClass(className, sel), sel) == RemoveClass(className, sel)
  {
    var r := RemoveClass(className, sel);
    if Contains(className, sel) && Contains(r, sel) {
      RemoveClassTokens(className, sel);
      assert sel !in Split(r, ' ');
      WithoutAbsent(Split(r, ' '), sel);
      JoinSplit(r, ' ');
      TrimIdempotent(Join(Without(Split(className, ' '), sel), ' '));
    }
  }

  /** Adding a class name that is not yet a substring appends it as the last token. */
  lemma AddClassTokens(className: string, sel: string)
    requires className != "" && !Contains(className, sel) && IsToken(sel)
    ensures Tokens(AddClass(className, sel)) == Tokens(className) + [sel]
  {
    assert AddClass(className, sel) == className + [' '] + sel;
    SplitAround(className, sel, ' ');
    assert ' ' !in sel;
    SplitNoSeparator(sel, ' ');
    WithoutConcat(Split(className, ' '), [sel], "");
  }

  /** Adding a class name twice is adding it once. */
  lemma AddClassIdempotent(className: string, sel: string)
    ensures AddClass(AddClass(className, sel), sel) == AddClass(className, sel)
  {
  }

  /** Adding a class name and then removing it gives back the original tokens. */
  lemma AddThenRemove(className: string, sel: string)
    requires className != "" && SpacesOnly(className) && !Contains(className, sel) && IsToken(sel)
    ensures Tokens(RemoveClass(AddClass(className, sel), sel)) == Tokens(className)
  {
    var added := AddClass(className, sel);
    assert added == className + " " + sel;
    assert SpacesOnly(added);
    RemoveClassTokens(added, sel);
    AddClassTokens(className, sel);
    WithoutConcat(Tokens(className), [sel], sel);
    if sel in Tokens(className) {
      TokenOccurs(className, sel);
    }
    WithoutAbsent(Tokens(className), sel);
  }

  /**
   * The substring test, not a token test, guards the add: once `sel` is a
   * substring of the className, adding it changes nothing, so a className
   * without the token never gains it.
   */
  lemma AddClassSubstringNoToken(className: string, sel: string)
    requires Contains(className, sel)
    ensures AddClass(className, sel) == className
    ensures sel !in Tokens(className) ==> sel !in Tokens(AddClass(className, sel))
  {
  }

  /** An instance: "unhovered" contains "hovered" but never gains the "hovered" token. */
  lemma AddClassSubstringBlocks()
    ensures AddClass("unhovered", HOVERED) == "unhovered"
    ensures HOVERED !in Tokens("unhovered")
  {
    assert OccursAt("unhovered", HOVERED, 2);
    SplitNoSeparator("unhovered", ' ');
  }
}
