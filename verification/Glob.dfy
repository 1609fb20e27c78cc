/**
 * File search by glob (models/files.py): five ordered text replacements turn a glob into a
 * SQL LIKE pattern with `\` as the escape character, compared without regard to case.
 */
module Glob {
  import opened Basics

  // ---- The translation ----

  /** Every occurrence of one character replaced by a text, left to right. */
  function Replace(text: string, from: char, to: string): string {
    if text == "" then ""
    else (if text[0] == from then to else [text[0]]) + Replace(text[1..], from, to)
  }

  function GlobToLikePattern(glob: string): string {
    var pattern := Replace(glob, '\\', "\\\\");
    var pattern := Replace(pattern, '%', "\\%");
    var pattern := Replace(pattern, '_', "\\_");
    var pattern := Replace(pattern, '*', "%");
    Replace(pattern, '?', "_")
  }

  // ---- What a glob means ----

  /** The part of a name that one glob character may stand for. */
  ghost predicate PieceFits(g: char, piece: string) {
    g == '*' || (|piece| == 1 && (g == '?' || g == piece[0]))
  }

  function Concat(pieces: seq<string>): string {
    if pieces == [] then "" else pieces[0] + Concat(pieces[1..])
  }

  ghost predicate Splits(glob: string, name: string, pieces: seq<string>) {
    && |pieces| == |glob|
    && Concat(pieces) == name
    && forall i :: 0 <= i < |glob| ==> PieceFits(glob[i], pieces[i])
  }

  /** The name can be cut into one piece for each glob character: `*` takes any piece, `?` any one character. */
  ghost predicate GlobMatches(glob: string, name: string) {
    exists pieces: seq<string> :: Splits(glob, name, pieces)
  }

  // ---- What SQL LIKE does ----

  /** LIKE with escape `\`; a pattern ending in a lone escape matches nothing. */
  predicate Like(pattern: string, name: string)
    decreases |pattern|, |name|
  {
    if pattern == "" then name == ""
    else if pattern[0] == '\\' then
      1 < |pattern| && name != "" && name[0] == pattern[1] && Like(pattern[2..], name[1..])
    else if pattern[0] == '%' then
      Like(pattern[1..], name) || (name != "" && Like(pattern, name[1..]))
    else if pattern[0] == '_' then
      name != "" && Like(pattern[1..], name[1..])
    else
      name != "" && name[0] == pattern[0] && Like(pattern[1..], name[1..])
  }

  function Fold(lower: char -> char, text: string): (folded: string)
    ensures |folded| == |text|
  {
    seq(|text|, i requires 0 <= i < |text| => lower(text[i]))
  }

  predicate Special(c: char) {
    c in ['\\', '%', '_', '*', '?']
  }

  /** Lower-casing neither changes the special characters nor turns a letter into one. */
  ghost predicate FoldsLetters(lower: char -> char) {
    forall c: char :: (Special(c) ==> lower(c) == c) && (Special(lower(c)) ==> Special(c))
  }

  /** ILIKE compares both sides in lower case. */
  predicate ILike(lower: char -> char, pattern: string, name: string) {
    Like(Fold(lower, pattern), Fold(lower, name))
  }

  // ---- The five replacements are one map over characters ----

  function LikeOf(c: char): string {
    if c == '\\' then "\\\\"
    else if c == '%' then "\\%"
    else if c == '_' then "\\_"
    else if c == '*' then "%"
    else if c == '?' then "_"
    else [c]
  }

  function MapChars(glob: string): string {
    if glob == "" then "" else LikeOf(glob[0]) + MapChars(glob[1..])
  }

  lemma {:induction false} ReplaceConcat(a: string, b: string, from: char, to: string)
    ensures Replace(a + b, from, to) == Replace(a, from, to) + Replace(b, from, to)
  {
    if a == "" {
      assert a + b == b;
    } else {
      ReplaceConcat(a[1..], b, from, to);
      assert (a + b)[1..] == a[1..] + b && (a + b)[0] == a[0];
      var image := if a[0] == from then to else [a[0]];
      assert image + (Replace(a[1..], from, to) + Replace(b, from, to)) ==
             (image + Replace(a[1..], from, to)) + Replace(b, from, to);
    }
  }

  lemma PatternOfConcat(a: string, b: string)
    ensures GlobToLikePattern(a + b) == GlobToLikePattern(a) + GlobToLikePattern(b)
  {
    ReplaceConcat(a, b, '\\', "\\\\");
    var a1, b1 := Replace(a, '\\', "\\\\"), Replace(b, '\\', "\\\\");
    ReplaceConcat(a1, b1, '%', "\\%");
    var a2, b2 := Replace(a1, '%', "\\%"), Replace(b1, '%', "\\%");
    ReplaceConcat(a2, b2, '_', "\\_");
    var a3, b3 := Replace(a2, '_', "\\_"), Replace(b2, '_', "\\_");
    ReplaceConcat(a3, b3, '*', "%");
    ReplaceConcat(Replace(a3, '*', "%"), Replace(b3, '*', "%"), '?', "_");
  }

  lemma ReplaceOne(c: char, from: char, to: string)
    ensures Replace([c], from, to) == if c == from then to else [c]
  {
  }

  lemma ReplaceTwo(c: char, d: char, from: char, to: string)
    requires c != from && d != from
    ensures Replace([c, d], from, to) == [c, d]
  {
    assert [c, d] == [c] + [d];
    ReplaceConcat([c], [d], from, to);
    ReplaceOne(c, from, to);
    ReplaceOne(d, from, to);
  }

  /** No replacement touches what an earlier one wrote, so each character has one image. */
  lemma PatternOfOne(c: char)
    ensures GlobToLikePattern([c]) == LikeOf(c)
  {
    ReplaceOne(c, '\\', "\\\\");
    ReplaceOne(c, '%', "\\%");
    ReplaceOne(c, '_', "\\_");
    ReplaceOne(c, '*', "%");
    ReplaceOne(c, '?', "_");
    ReplaceOne('%', '?', "_");
    forall from: char, to: string | from == '%' || from == '_' || from == '*' || from == '?'
      ensures Replace("\\\\", from, to) == "\\\\"
    {
      ReplaceTwo('\\', '\\', from, to);
    }
    forall from: char, to: string | from == '_' || from == '*' || from == '?'
      ensures Replace("\\%", from, to) == "\\%"
    {
      ReplaceTwo('\\', '%', from, to);
    }
    forall from: char, to: string | from == '*' || from == '?'
      ensures Replace("\\_", from, to) == "\\_"
    {
      ReplaceTwo('\\', '_', from, to);
    }
  }

  /** What each special character becomes, and what the pattern's own wildcards mean. */
  lemma TranslationTable(name: string)
    ensures GlobToLikePattern("*") == "%" && GlobToLikePattern("?") == "_"
    ensures GlobToLikePattern("%") == "\\%" && GlobToLikePattern("_") == "\\_" && GlobToLikePattern("\\") == "\\\\"
    ensures Like("%", name) && (Like("_", name) <==> |name| == 1)
    ensures (Like("\\%", name) <==> name == "%") && (Like("\\_", name) <==> name == "_")
  {
    hide GlobToLikePattern, Like;
    PatternOfOne('*');
    PatternOfOne('?');
    PatternOfOne('%');
    PatternOfOne('_');
    PatternOfOne('\\');
    PercentMatchesAll(name);
    UnderscoreMatchesOne(name);
    EscapeMatchesItself('%', name);
    EscapeMatchesItself('_', name);
    assert ['\\', '%'] == "\\%" && ['\\', '_'] == "\\_" && ['%'] == "%" && ['_'] == "_";
  }

  lemma UnderscoreMatchesOne(name: string)
    ensures Like("_", name) <==> |name| == 1
  {
    assert "_"[1..] == "";
    assert name != "" ==> (Like("", name[1..]) <==> name[1..] == "");
  }

  lemma EscapeMatchesItself(c: char, name: string)
    ensures Like(['\\', c], name) <==> name == [c]
  {
    assert ['\\', c][2..] == "";
    assert name != "" ==> (Like("", name[1..]) <==> name[1..] == "") && name == [name[0]] + name[1..];
  }

  lemma {:induction false} PercentMatchesAll(name: string)
    ensures Like("%", name)
  {
    assert "%"[1..] == "";
    if name != "" {
      PercentMatchesAll(name[1..]);
    }
  }

  lemma {:induction false} PatternIsCharacterMap(glob: string)
    ensures GlobToLikePattern(glob) == MapChars(glob)
  {
    if glob != "" {
      assert glob == [glob[0]] + glob[1..];
      PatternOfConcat([glob[0]], glob[1..]);
      PatternOfOne(glob[0]);
      PatternIsCharacterMap(glob[1..]);
    }
  }

  // ---- The pattern means the glob ----

  lemma {:induction false} FoldOfMap(lower: char -> char, glob: string)
    requires FoldsLetters(lower)
    ensures Fold(lower, MapChars(glob)) == MapChars(Fold(lower, glob))
  {
    if glob == "" {
      assert Fold(lower, MapChars(glob)) == "";
    } else {
      var c, rest := glob[0], glob[1..];
      FoldOfMap(lower, rest);
      FoldConcat(lower, LikeOf(c), MapChars(rest));
      FoldOfImage(lower, c);
      assert Fold(lower, glob)[1..] == Fold(lower, rest);
    }
  }

  lemma FoldConcat(lower: char -> char, a: string, b: string)
    ensures Fold(lower, a + b) == Fold(lower, a) + Fold(lower, b)
  {
  }

  /** Folding a character and translating it commute. */
  lemma FoldOfImage(lower: char -> char, c: char)
    requires FoldsLetters(lower)
    ensures Fold(lower, LikeOf(c)) == LikeOf(lower(c))
  {
  }

  lemma StarStep(glob: string, name: string)
    requires glob != "" && glob[0] == '*'
    ensures GlobMatches(glob, name) <==>
            GlobMatches(glob[1..], name) || (name != "" && GlobMatches(glob, name[1..]))
  {
    if GlobMatches(glob, name) {
      var pieces :| Splits(glob, name, pieces);
      if pieces[0] == "" {
        assert Splits(glob[1..], name, pieces[1..]);
      } else {
        var shorter := pieces[0 := pieces[0][1..]];
        assert shorter[1..] == pieces[1..];
        assert name[1..] == pieces[0][1..] + Concat(pieces[1..]);
        assert Splits(glob, name[1..], shorter);
      }
    }
    if GlobMatches(glob[1..], name) {
      var pieces :| Splits(glob[1..], name, pieces);
      assert ([""] + pieces)[1..] == pieces;
      assert Splits(glob, name, [""] + pieces);
    }
    if name != "" && GlobMatches(glob, name[1..]) {
      var pieces :| Splits(glob, name[1..], pieces);
      var longer := pieces[0 := [name[0]] + pieces[0]];
      assert longer[1..] == pieces[1..];
      assert name == [name[0]] + (pieces[0] + Concat(pieces[1..]));
      assert Splits(glob, name, longer);
    }
  }

  lemma SingleStep(glob: string, name: string)
    requires glob != "" && glob[0] != '*'
    ensures GlobMatches(glob, name) <==>
            name != "" && PieceFits(glob[0], [name[0]]) && GlobMatches(glob[1..], name[1..])
  {
    if GlobMatches(glob, name) {
      var pieces :| Splits(glob, name, pieces);
      assert PieceFits(glob[0], pieces[0]);
      assert pieces[0] == [name[0]];
      assert name[1..] == Concat(pieces[1..]);
      assert Splits(glob[1..], name[1..], pieces[1..]);
    }
    if name != "" && PieceFits(glob[0], [name[0]]) && GlobMatches(glob[1..], name[1..]) {
      var pieces :| Splits(glob[1..], name[1..], pieces);
      assert ([[name[0]]] + pieces)[1..] == pieces;
      assert Splits(glob, name, [[name[0]]] + pieces);
    }
  }

  lemma {:induction false} LikeIsGlob(glob: string, name: string)
    ensures Like(MapChars(glob), name) <==> GlobMatches(glob, name)
    decreases |glob|, |name|
  {
    if glob == "" {
      if name == "" {
        assert Splits(glob, name, []);
      }
    } else {
      var c, rest := glob[0], MapChars(glob[1..]);
      var pattern := LikeOf(c) + rest;
      assert pattern[|LikeOf(c)|..] == rest;
      if c == '*' {
        StarStep(glob, name);
        LikeIsGlob(glob[1..], name);
        if name != "" {
          LikeIsGlob(glob, name[1..]);
        }
      } else {
        SingleStep(glob, name);
        if name != "" {
          LikeIsGlob(glob[1..], name[1..]);
        }
      }
    }
  }

  /** The translation keeps the meaning of every glob on every name, in folded case. */
  lemma TranslationPreservesMeaning(lower: char -> char, glob: string, name: string)
    requires FoldsLetters(lower)
    ensures ILike(lower, GlobToLikePattern(glob), name) <==> GlobMatches(Fold(lower, glob), Fold(lower, name))
  {
    PatternIsCharacterMap(glob);
    FoldOfMap(lower, glob);
    LikeIsGlob(Fold(lower, glob), Fold(lower, name));
  }

  /** A glob without wildcards finds exactly the name it spells, in folded case. */
  lemma {:induction false} LiteralGlob(glob: string, name: string)
    requires forall i :: 0 <= i < |glob| ==> glob[i] != '*' && glob[i] != '?'
    ensures GlobMatches(glob, name) <==> glob == name
  {
    if glob == "" {
      if name == "" { assert Splits(glob, name, []); }
    } else {
      SingleStep(glob, name);
      if name != "" {
        LiteralGlob(glob[1..], name[1..]);
        assert glob == [glob[0]] + glob[1..] && name == [name[0]] + name[1..];
      }
    }
  }

  // ---- search_files ----

  datatype File = File(id: string, userId: string, filename: string)

  /** The selected rows; the filter is skipped for the pattern `%`, and an absent or empty user means all users. */
  function SearchFiles(lower: char -> char, files: set<File>, userId: Option<string>, filename: string): set<File> {
    var mine := if userId.Some? && userId.value != "" then set f | f in files && f.userId == userId.value else files;
    var pattern := GlobToLikePattern(filename);
    if pattern != "%" then set f | f in mine && ILike(lower, pattern, f.filename) else mine
  }

  lemma {:induction false} MapCharsNeverShrinks(glob: string)
    ensures |MapChars(glob)| >= |glob|
  {
    if glob != "" {
      MapCharsNeverShrinks(glob[1..]);
    }
  }

  /** Only the glob `*` gives `%`, and it matches every name, so skipping the filter changes nothing. */
  lemma OnlyStarSkipsFilter(filename: string)
    ensures GlobToLikePattern(filename) == "%" <==> filename == "*"
  {
    PatternIsCharacterMap(filename);
    MapCharsNeverShrinks(filename);
    if |filename| == 1 {
      assert MapChars(filename) == LikeOf(filename[0]);
    }
    PatternOfOne('*');
  }

  lemma SearchSelectsGlobMatches(lower: char -> char, files: set<File>, userId: Option<string>, filename: string,
                                 f: File)
    requires FoldsLetters(lower)
    ensures f in SearchFiles(lower, files, userId, filename) <==>
            && f in files
            && (userId.Some? && userId.value != "" ==> f.userId == userId.value)
            && GlobMatches(Fold(lower, filename), Fold(lower, f.filename))
  {
    OnlyStarSkipsFilter(filename);
    TranslationPreservesMeaning(lower, filename, f.filename);
    if filename == "*" {
      assert Special('*');
      assert Fold(lower, filename) == "*";
      assert Concat([Fold(lower, f.filename)][1..]) == "";
      assert Splits("*", Fold(lower, f.filename), [Fold(lower, f.filename)]);
    }
  }
}
