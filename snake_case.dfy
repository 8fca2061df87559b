/** `ToSnakeCase`: lower-case a PascalCase/camelCase identifier and put an
    underscore before each upper-case letter that starts a lower-case run.
    Character classes and case mapping are restricted to ASCII. */
module SnakeCase {
  import opened Common

  predicate IsUpper(c: char) { 'A' <= c <= 'Z' }
  predicate IsLower(c: char) { 'a' <= c <= 'z' }

  /** ASCII lower-casing of one character. */
  function ToLower(c: char): (l: char)
    ensures !IsUpper(l)
    ensures !IsUpper(c) ==> l == c
    ensures l == '_' <==> c == '_'
  {
    if IsUpper(c) then (c as int + 32) as char else c
  }

  /** What the loop appends for index i < |s| - 1: an underscore when s[i] is
      upper case and s[i + 1] lower case, then s[i] lower-cased. */
  function Piece(s: string, i: nat): string
    requires i + 1 < |s|
  {
    (if IsUpper(s[i]) && IsLower(s[i + 1]) then "_" else "") + [ToLower(s[i])]
  }

  /** The pieces for indices 0 .. n-1, in order. */
  function Pieces(s: string, n: nat): string
    requires n < |s|
  {
    if n == 0 then "" else Pieces(s, n - 1) + Piece(s, n - 1)
  }

  /** The string built before trimming: the pieces, then the last character
      lower-cased (it never gets an underscore of its own). */
  function Built(s: string): string
    requires |s| > 0
  {
    Pieces(s, |s| - 1) + [ToLower(s[|s| - 1])]
  }

  /** `TrimStart(c)`: drops every leading `c`. */
  function TrimStart(s: string, c: char): (t: string)
    ensures |t| <= |s| && t == s[|s| - |t|..]
    ensures forall i :: 0 <= i < |s| - |t| ==> s[i] == c
    ensures t == [] || t[0] != c
  {
    if s != [] && s[0] == c then TrimStart(s[1..], c) else s
  }

  /** The string with every `c` removed. */
  function Without(s: string, c: char): string
  {
    if s == [] then [] else (if s[0] == c then [] else [s[0]]) + Without(s[1..], c)
  }

  /** ASCII lower-casing of a whole string. */
  function LowerAll(s: string): (l: string)
    ensures |l| == |s| && forall i :: 0 <= i < |s| ==> l[i] == ToLower(s[i])
  {
    if s == [] then [] else [ToLower(s[0])] + LowerAll(s[1..])
  }

  /** The result for a non-empty string. */
  function SnakeOf(s: string): string
    requires |s| > 0
  {
    TrimStart(Built(s), '_')
  }

  /** The source method. The last character is read unconditionally, so an
      empty string fails with an index error. */
  method ToSnakeCase(str: string) returns (result: Result<string>)
    ensures str == [] <==> result.Failure?
    ensures result.Failure? ==> result.error == IndexOutOfRange
    ensures result.Success? ==> result.value == SnakeOf(str)
  {
    var sb := "";
    var i := 0;
    while i < |str| - 1
      invariant 0 <= i && (|str| > 0 ==> i <= |str| - 1)
      invariant |str| > 0 ==> sb == Pieces(str, i)
    {
      var ch := str[i];
      var nCh := str[i + 1];
      if IsUpper(ch) && IsLower(nCh) {
        sb := sb + "_";
      }
      sb := sb + [ToLower(ch)];
      i := i + 1;
    }
    if |str| == 0 {
      return Failure(IndexOutOfRange);
    }
    sb := sb + [ToLower(str[|str| - 1])];
    result := Success(TrimStart(sb, '_'));
  }

  lemma {:induction false} WithoutConcat(a: string, b: string, c: char)
    ensures Without(a + b, c) == Without(a, c) + Without(b, c)
  {
    if a == [] {
      assert a + b == b;
    } else {
      assert (a + b)[1..] == a[1..] + b;
      WithoutConcat(a[1..], b, c);
    }
  }

  lemma {:induction false} WithoutTrimStart(s: string, c: char)
    ensures Without(TrimStart(s, c), c) == Without(s, c)
  {
    if s != [] && s[0] == c {
      WithoutTrimStart(s[1..], c);
    }
  }

  lemma WithoutSingle(x: char, c: char)
    ensures Without([x], c) == if x == c then [] else [x]
  {
    assert [x][1..] == [];
  }

  lemma {:induction false} PieceWithoutUnderscores(s: string, i: nat)
    requires i + 1 < |s|
    ensures Without(Piece(s, i), '_') == Without([ToLower(s[i])], '_')
  {
    var prefix := if IsUpper(s[i]) && IsLower(s[i + 1]) then "_" else "";
    WithoutConcat(prefix, [ToLower(s[i])], '_');
    WithoutSingle('_', '_');
    assert Without("", '_') == "";
  }

  lemma {:induction false} PiecesWithoutUnderscores(s: string, n: nat)
    requires n < |s|
    ensures Without(Pieces(s, n), '_') == Without(LowerAll(s[..n]), '_')
  {
    if n == 0 {
      assert s[..0] == [];
    } else {
      PiecesWithoutUnderscores(s, n - 1);
      WithoutConcat(Pieces(s, n - 1), Piece(s, n - 1), '_');
      PieceWithoutUnderscores(s, n - 1);
      var lowered := LowerAll(s[..n - 1]);
      assert LowerAll(s[..n]) == lowered + [ToLower(s[n - 1])];
      WithoutConcat(lowered, [ToLower(s[n - 1])], '_');
    }
  }

  lemma {:induction false} LowerAllSnoc(s: string)
    requires |s| > 0
    ensures LowerAll(s) == LowerAll(s[..|s| - 1]) + [ToLower(s[|s| - 1])]
  {
    var a, b := LowerAll(s), LowerAll(s[..|s| - 1]) + [ToLower(s[|s| - 1])];
    forall i | 0 <= i < |s| ensures a[i] == b[i] {
      if i < |s| - 1 {
        assert s[..|s| - 1][i] == s[i];
      }
    }
  }

  lemma BuiltWithoutUnderscores(s: string)
    requires |s| > 0
    ensures Without(Built(s), '_') == Without(LowerAll(s), '_')
  {
    var n := |s| - 1;
    var last := [ToLower(s[n])];
    PiecesWithoutUnderscores(s, n);
    WithoutConcat(Pieces(s, n), last, '_');
    LowerAllSnoc(s);
    WithoutConcat(LowerAll(s[..n]), last, '_');
  }

  /** Apart from underscores, the result is the input lower-cased, in order:
      the only change besides case is inserting and trimming underscores. */
  lemma SnakeOfIsLoweredInput(s: string)
    requires |s| > 0
    ensures Without(SnakeOf(s), '_') == Without(LowerAll(s), '_')
  {
    WithoutTrimStart(Built(s), '_');
    BuiltWithoutUnderscores(s);
  }

  lemma {:induction false} PiecesHaveNoUpper(s: string, n: nat)
    requires n < |s|
    ensures forall i :: 0 <= i < |Pieces(s, n)| ==> !IsUpper(Pieces(s, n)[i])
  {
    if n > 0 {
      PiecesHaveNoUpper(s, n - 1);
    }
  }

  /** No upper-case letter survives, and no underscore is left at the start. */
  lemma SnakeOfShape(s: string)
    requires |s| > 0
    ensures forall i :: 0 <= i < |SnakeOf(s)| ==> !IsUpper(SnakeOf(s)[i])
    ensures SnakeOf(s) == [] || SnakeOf(s)[0] != '_'
  {
    PiecesHaveNoUpper(s, |s| - 1);
  }

  /** The result ends with the last input character lower-cased, unless that
      character is an underscore; the final character never gets an
      underscore inserted before it. */
  lemma SnakeOfEnding(s: string)
    requires |s| > 0 && s[|s| - 1] != '_'
    ensures |SnakeOf(s)| > 0 && SnakeOf(s)[|SnakeOf(s)| - 1] == ToLower(s[|s| - 1])
  {
    var b := Built(s);
    assert b[|b| - 1] != '_';
  }

  /** A one-character string becomes its lower-case form (or nothing, for a
      lone underscore). */
  lemma SnakeOfSingle(c: char)
    ensures SnakeOf([c]) == if c == '_' then [] else [ToLower(c)]
  {
  }

  lemma SnakeOfExample()
    ensures SnakeOf("aBc") == "a_bc"
  {
    var s := "aBc";
    assert ToLower('B') == 'b';
    assert Piece(s, 0) == "a";
    assert Piece(s, 1) == "_b";
    assert Pieces(s, 1) == "a";
    assert Built(s) == "a_bc";
  }
}
