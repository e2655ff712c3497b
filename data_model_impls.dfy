/** The name under which the Lua database object registers the upsert method of a record
    type (`make_upsert_name` in src/lua_api/sqlite/data_model_impls.rs): `upsert`, then
    the type name with every ASCII capital turned into `_` and its lower-case form. */
module DataModelImpls {
  import opened Text

  /** What one character of the type name becomes. */
  function Piece(c: char): string
  {
    if IsAsciiUpper(c) then ['_', AsciiLower(c)] else [AsciiLower(c)]
  }

  /** The type name after its characters are replaced piece by piece. */
  function Snake(s: string): string
  {
    if |s| == 0 then "" else Snake(s[..|s| - 1]) + Piece(s[|s| - 1])
  }

  /** The registered method name. */
  function UpsertName(s: string): string
  {
    "upsert" + Snake(s)
  }

  /** `make_upsert_name`: a growing string, one character of the input at a time. */
  method MakeUpsertName(s: string) returns (accum: string)
    ensures accum == UpsertName(s)
  {
    accum := "upsert";
    for i := 0 to |s|
      invariant accum == "upsert" + Snake(s[..i])
    {
      assert s[..i + 1][..i] == s[..i];
      if IsAsciiUpper(s[i]) {
        accum := accum + ['_'];
      }
      accum := accum + [AsciiLower(s[i])];
    }
    assert s[..|s|] == s;
  }

  function CountUpper(s: string): nat
  {
    if |s| == 0 then 0 else CountUpper(s[..|s| - 1]) + (if IsAsciiUpper(s[|s| - 1]) then 1 else 0)
  }

  predicate NoUpper(s: string)
  {
    forall i :: 0 <= i < |s| ==> !IsAsciiUpper(s[i])
  }

  lemma NoUpperConcat(a: string, b: string)
    requires NoUpper(a) && NoUpper(b)
    ensures NoUpper(a + b)
  {
    forall i | 0 <= i < |a + b| ensures !IsAsciiUpper((a + b)[i]) {
      if i < |a| {
        assert (a + b)[i] == a[i];
      } else {
        assert (a + b)[i] == b[i - |a|];
      }
    }
  }

  lemma PieceShape(c: char)
    ensures NoUpper(Piece(c))
    ensures |Piece(c)| == if IsAsciiUpper(c) then 2 else 1
    ensures !IsAsciiUpper(c) ==> Piece(c) == [c]
  {
  }

  /** The name holds no ASCII capital, grows by one `_` per capital of the input, and is
      the input itself when the input has no capital. */
  lemma {:induction false} SnakeShape(s: string)
    ensures NoUpper(Snake(s))
    ensures |Snake(s)| == |s| + CountUpper(s)
    ensures NoUpper(s) ==> Snake(s) == s
  {
    if |s| > 0 {
      var init, last := s[..|s| - 1], s[|s| - 1];
      SnakeShape(init);
      PieceShape(last);
      NoUpperConcat(Snake(init), Piece(last));
      if NoUpper(s) {
        forall i | 0 <= i < |init| ensures !IsAsciiUpper(init[i]) {
          assert init[i] == s[i];
        }
        assert s == init + [last];
      }
    }
  }

  /** Every registered name starts with `upsert`, holds no ASCII capital and has length
      6 + |input| + the number of capitals in the input; an input without capitals is
      appended unchanged. */
  lemma UpsertNameShape(s: string)
    ensures |UpsertName(s)| >= 6 && UpsertName(s)[..6] == "upsert"
    ensures NoUpper(UpsertName(s))
    ensures |UpsertName(s)| == 6 + |s| + CountUpper(s)
    ensures NoUpper(s) ==> UpsertName(s) == "upsert" + s
  {
    var u := "upsert";
    SnakeShape(s);
    assert NoUpper(u);
    NoUpperConcat(u, Snake(s));
    assert (u + Snake(s))[..|u|] == u;
  }

  predicate IsAsciiLowerLetter(c: char) { 'a' <= c <= 'z' }

  /** Reads a name back: `_` followed by a lower-case letter is that letter's capital. */
  function Unsnake(t: string): string
  {
    if |t| == 0 then ""
    else if |t| >= 2 && t[|t| - 2] == '_' && IsAsciiLowerLetter(t[|t| - 1]) then
      Unsnake(t[..|t| - 2]) + [(t[|t| - 1] as int - 32) as char]
    else Unsnake(t[..|t| - 1]) + [t[|t| - 1]]
  }

  lemma {:induction false} SnakeLastNotUnderscore(s: string)
    requires '_' !in s
    ensures Snake(s) == "" || Snake(s)[|Snake(s)| - 1] != '_'
  {
    if |s| > 0 {
      var c := s[|s| - 1];
      assert c in s;
    }
  }

  lemma UnsnakeSnocCapital(t: string, c: char)
    requires IsAsciiUpper(c)
    ensures Unsnake(t + ['_', AsciiLower(c)]) == Unsnake(t) + [c]
  {
    var u := t + ['_', AsciiLower(c)];
    assert u[..|u| - 2] == t;
  }

  lemma UnsnakeSnocPlain(t: string, c: char)
    requires t == "" || t[|t| - 1] != '_'
    ensures Unsnake(t + [c]) == Unsnake(t) + [c]
  {
    var u := t + [c];
    assert u[..|u| - 1] == t;
  }

  /** For type names without `_` the conversion loses nothing: reading the name back gives
      the type name, so distinct record types get distinct method names. */
  lemma {:induction false} UnsnakeSnake(s: string)
    requires '_' !in s
    ensures Unsnake(Snake(s)) == s
  {
    if |s| > 0 {
      var init := s[..|s| - 1];
      var c := s[|s| - 1];
      assert s == init + [c];
      assert '_' !in init;
      UnsnakeSnake(init);
      if IsAsciiUpper(c) {
        UnsnakeSnocCapital(Snake(init), c);
      } else {
        SnakeLastNotUnderscore(init);
        UnsnakeSnocPlain(Snake(init), c);
      }
    }
  }

  lemma SnakeInjective(a: string, b: string)
    requires '_' !in a && '_' !in b
    requires UpsertName(a) == UpsertName(b)
    ensures a == b
  {
    assert Snake(a) == UpsertName(a)[6..];
    assert Snake(b) == UpsertName(b)[6..];
    UnsnakeSnake(a);
    UnsnakeSnake(b);
  }

  lemma {:induction false} SnakeAppend(a: string, b: string)
    ensures Snake(a + b) == Snake(a) + Snake(b)
  {
    if |b| > 0 {
      var init := b[..|b| - 1];
      assert (a + b)[..|a + b| - 1] == a + init;
      SnakeAppend(a, init);
    } else {
      assert a + b == a;
    }
  }

  /** A capitalised word becomes `_`, its lower-cased capital and the rest unchanged. */
  lemma SnakeWord(cap: char, rest: string)
    requires IsAsciiUpper(cap) && NoUpper(rest)
    ensures Snake([cap] + rest) == ['_', AsciiLower(cap)] + rest
  {
    SnakeAppend([cap], rest);
    SnakeShape(rest);
    assert [cap][..0] == [];
  }

  lemma CapitalWord(word: string, cap: char, rest: string, snaked: string)
    requires IsAsciiUpper(cap) && NoUpper(rest) && word == [cap] + rest
    requires snaked == ['_', AsciiLower(cap)] + rest
    ensures Snake(word) == snaked
  {
    SnakeWord(cap, rest);
  }

  /** One lemma per word of `MediaCategoryRecord`, so that each literal is unfolded in a
      proof of its own rather than all three in one. */
  lemma SnakeMedia() ensures Snake("Media") == "_media" { CapitalWord("Media", 'M', "edia", "_media"); }
  lemma SnakeCategory() ensures Snake("Category") == "_category" { CapitalWord("Category", 'C', "ategory", "_category"); }
  lemma SnakeRecord() ensures Snake("Record") == "_record" { CapitalWord("Record", 'R', "ecord", "_record"); }

  lemma SnakeThreeWords(a: string, b: string, c: string)
    requires a == "Media" && b == "Category" && c == "Record"
    ensures Snake(a + b + c) == "_media_category_record"
  {
    SnakeMedia();
    SnakeCategory();
    SnakeRecord();
    SnakeAppend(a, b);
    SnakeAppend(a + b, c);
  }

  lemma WordsJoin(a: string, b: string, c: string, t: string)
    requires a == "Media" && b == "Category" && c == "Record" && t == "MediaCategoryRecord"
    ensures a + b + c == t
  {
  }

  lemma PrefixJoin(u: string, v: string, w: string)
    requires u == "upsert" && v == "_media_category_record" && w == "upsert_media_category_record"
    ensures u + v == w
  {
  }

  /** The name registered for `MediaCategoryRecord`. */
  lemma MediaCategoryRecordName(t: string)
    requires t == "MediaCategoryRecord"
    ensures UpsertName(t) == "upsert_media_category_record"
  {
    var a, b, c := "Media", "Category", "Record";
    SnakeThreeWords(a, b, c);
    WordsJoin(a, b, c, t);
    PrefixJoin("upsert", Snake(t), "upsert_media_category_record");
  }
}
