/**
 * The string primitives the client relies on: `String.prototype.trim`, an ASCII model of
 * `toLowerCase`, `includes`, and the ordering IndexedDB uses to walk string keys.
 */
module Text {

  /** The characters `trim` removes: ECMAScript WhiteSpace (including every Zs character) and LineTerminator. */
  predicate IsJsSpace(c: char) {
    c == '\t' || c == '\n' || c == '\U{B}' || c == '\U{C}' || c == '\r' || c == ' '
    || c == '\U{A0}' || c == '\U{1680}' || ('\U{2000}' <= c <= '\U{200A}')
    || c == '\U{2028}' || c == '\U{2029}' || c == '\U{202F}' || c == '\U{205F}'
    || c == '\U{3000}' || c == '\U{FEFF}'
  }

  /** Drops leading white space: the result is the longest suffix of `s` that does not start with a space. */
  function TrimStart(s: string): (r: string)
    ensures |r| <= |s| && r == s[|s| - |r|..]
    ensures r == [] || !IsJsSpace(r[0])
    ensures forall i :: 0 <= i < |s| - |r| ==> IsJsSpace(s[i])
  {
    if |s| > 0 && IsJsSpace(s[0]) then TrimStart(s[1..]) else s
  }

  /** Drops trailing white space: the result is the longest prefix of `s` that does not end with a space. */
  function TrimEnd(s: string): (r: string)
    ensures |r| <= |s| && r == s[..|r|]
    ensures r == [] || !IsJsSpace(r[|r| - 1])
    ensures forall i :: |r| <= i < |s| ==> IsJsSpace(s[i])
  {
    if |s| > 0 && IsJsSpace(s[|s| - 1]) then TrimEnd(s[..|s| - 1]) else s
  }

  /** `s.trim()`. */
  function Trim(s: string): string {
    TrimEnd(TrimStart(s))
  }

  /** A string trims to the empty string exactly when every one of its characters is white space. */
  lemma TrimEmptyIff(s: string)
    ensures Trim(s) == [] <==> forall i :: 0 <= i < |s| ==> IsJsSpace(s[i])
  {
    var t := TrimStart(s);
    if Trim(s) == [] {
      assert t == [];
    } else {
      var r := Trim(s);
      assert !IsJsSpace(r[0]);
      assert r[0] == t[0] == s[|s| - |t|];
    }
  }

  /** `c.toLowerCase()` for the ASCII letters; every other character is left as it is. */
  function LowerChar(c: char): char {
    if 'A' <= c <= 'Z' then (c as int + 32) as char else c
  }

  /** `s.toLowerCase()`, character by character. */
  function Lower(s: string): (r: string)
    ensures |r| == |s|
  {
    seq(|s|, i requires 0 <= i < |s| => LowerChar(s[i]))
  }

  /** `s.startsWith(p)`. */
  predicate StartsWith(s: string, p: string) {
    |p| <= |s| && s[..|p|] == p
  }

  /** `t` occurs in `s` starting at index `i`. */
  predicate OccursAt(s: string, t: string, i: int) {
    0 <= i && i + |t| <= |s| && s[i..i + |t|] == t
  }

  /** `s.includes(t)`: `t` occurs in `s` as a contiguous block. */
  predicate Includes(s: string, t: string) {
    exists i :: 0 <= i <= |s| && OccursAt(s, t, i)
  }

  /** Every string includes the empty string, so an empty query or search term matches everything. */
  lemma IncludesEmpty(s: string)
    ensures Includes(s, "")
  {
    assert OccursAt(s, "", 0);
  }

  /** Strict lexicographic order on strings, character by character, a proper prefix first. */
  predicate Below(a: string, b: string) {
    if a == [] then b != []
    else b != [] && (a[0] < b[0] || (a[0] == b[0] && Below(a[1..], b[1..])))
  }

  lemma {:induction false} BelowIrreflexive(a: string)
    ensures !Below(a, a)
  {
    if a != [] {
      BelowIrreflexive(a[1..]);
    }
  }

  lemma {:induction false} BelowTransitive(a: string, b: string, c: string)
    requires Below(a, b) && Below(b, c)
    ensures Below(a, c)
  {
    if a != [] && a[0] == b[0] && b[0] == c[0] {
      BelowTransitive(a[1..], b[1..], c[1..]);
    }
  }

  lemma {:induction false} BelowTotal(a: string, b: string)
    requires a != b
    ensures Below(a, b) || Below(b, a)
  {
    if a != [] && b != [] && a[0] == b[0] {
      assert a == [a[0]] + a[1..] && b == [b[0]] + b[1..];
      BelowTotal(a[1..], b[1..]);
    }
  }

  /** The least key of a non-empty key set: it comes before every other key. */
  lemma {:induction false} Least(keys: set<string>) returns (m: string)
    requires keys != {}
    ensures m in keys && forall x :: x in keys && x != m ==> Below(m, x)
    decreases |keys|
  {
    if forall z :: z !in keys {
      assert false;
    }
    var y :| y in keys;
    if keys == {y} {
      return y;
    }
    var rest := keys - {y};
    var r := Least(rest);
    m := LeastOfTwo(r, y, rest);
  }

  /** Adding `y` to a set whose least key is `r`: the least key is the smaller of the two. */
  lemma LeastOfTwo(r: string, y: string, rest: set<string>) returns (m: string)
    requires r in rest && forall x :: x in rest && x != r ==> Below(r, x)
    ensures m in rest + {y} && forall x :: x in rest + {y} && x != m ==> Below(m, x)
  {
    if r == y || Below(r, y) {
      return r;
    }
    BelowTotal(r, y);
    forall x | x in rest + {y} && x != y ensures Below(y, x) {
      if x != r {
        BelowTransitive(y, r, x);
      }
    }
    return y;
  }

  /** A non-empty key set has a least key, which a cursor visits first. */
  lemma LeastExists(keys: set<string>)
    requires keys != {}
    ensures exists m :: m in keys && forall x :: x in keys && x != m ==> Below(m, x)
  {
    var m := Least(keys);
  }

}
