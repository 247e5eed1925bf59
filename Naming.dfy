/** `snake_to_camel`: `"".join(word.title() for word in name.split("_"))`, over ASCII text. */
module Naming {
  import opened Text

  predicate IsAscii(s: string)
  {
    forall i :: 0 <= i < |s| ==> s[i] as int < 128
  }

  predicate IsUpper(c: char) { 'A' <= c <= 'Z' }
  predicate IsLower(c: char) { 'a' <= c <= 'z' }

  /** On ASCII text the cased characters are exactly the letters. */
  predicate IsCased(c: char) { IsUpper(c) || IsLower(c) }

  function ToUpper(c: char): (u: char)
    ensures IsCased(u) == IsCased(c) && (IsCased(c) ==> IsUpper(u))
    ensures !IsCased(c) ==> u == c
  {
    if IsLower(c) then (c as int - 32) as char else c
  }

  function ToLower(c: char): (l: char)
    ensures IsCased(l) == IsCased(c) && (IsCased(c) ==> IsLower(l))
    ensures !IsCased(c) ==> l == c
  {
    if IsUpper(c) then (c as int + 32) as char else c
  }

  /** `str.title` from a position whose preceding character is cased (`afterCased`) or not:
      a character after a cased one is lower-cased, any other is upper-cased. */
  function TitleFrom(w: string, afterCased: bool): (r: string)
    ensures |r| == |w|
    ensures forall i :: 0 <= i < |w| ==> IsCased(r[i]) == IsCased(w[i])
    ensures forall i :: 0 <= i < |w| && !IsCased(w[i]) ==> r[i] == w[i]
    ensures forall i :: 0 <= i < |w| && IsCased(w[i]) ==>
      r[i] == if (if i == 0 then afterCased else IsCased(w[i - 1])) then ToLower(w[i]) else ToUpper(w[i])
  {
    if w == [] then []
    else
      var rest := TitleFrom(w[1..], IsCased(w[0]));
      assert forall i :: 1 <= i < |w| ==> w[1..][i - 1] == w[i];
      [if afterCased then ToLower(w[0]) else ToUpper(w[0])] + rest
  }

  /** `word.title()`. */
  function Title(w: string): (r: string)
  {
    TitleFrom(w, false)
  }

  /** `s.split(sep)`: the pieces between separators, empty ones included; there is always one more piece
      than there are separators. */
  function Split(s: string, sep: char): (pieces: seq<string>)
    ensures |pieces| == Count(s, sep) + 1
    ensures forall i :: 0 <= i < |pieces| ==> sep !in pieces[i]
  {
    if s == [] then [[]]
    else
      var rest := Split(s[1..], sep);
      if s[0] == sep then [[]] + rest
      else [[s[0]] + rest[0]] + rest[1..]
  }

  /** `sep.join(pieces)`. */
  function Join(pieces: seq<string>, sep: char): string
  {
    if pieces == [] then []
    else if |pieces| == 1 then pieces[0]
    else pieces[0] + [sep] + Join(pieces[1..], sep)
  }

  /** `"".join(pieces)`. */
  function Concat(pieces: seq<string>): string
  {
    if pieces == [] then [] else pieces[0] + Concat(pieces[1..])
  }

  /** Sum of the piece lengths. */
  function TotalLength(pieces: seq<string>): nat
  {
    if pieces == [] then 0 else |pieces[0]| + TotalLength(pieces[1..])
  }

  /** Joining the pieces of a split with the same separator restores the string. */
  lemma {:induction false} SplitJoin(s: string, sep: char)
    ensures Join(Split(s, sep), sep) == s
  {
    if s != [] {
      var rest := Split(s[1..], sep);
      SplitJoin(s[1..], sep);
      if s[0] == sep {
        assert Split(s, sep)[1..] == rest;
      } else {
        var ps := Split(s, sep);
        assert ps[0] == [s[0]] + rest[0] && ps[1..] == rest[1..];
        if |rest| == 1 {
          assert s == [s[0]] + s[1..];
        } else {
          assert Join(rest, sep) == rest[0] + [sep] + Join(rest[1..], sep);
        }
      }
    }
  }

  /** The pieces of a split hold every character but the separators. */
  lemma {:induction false} SplitLength(s: string, sep: char)
    ensures TotalLength(Split(s, sep)) == |s| - Count(s, sep)
  {
    if s != [] {
      var rest := Split(s[1..], sep);
      SplitLength(s[1..], sep);
      if s[0] == sep {
        assert Split(s, sep)[1..] == rest;
      } else {
        assert Split(s, sep)[1..] == rest[1..];
      }
    }
  }

  /** Concatenation keeps every character of every piece, and adds none. */
  lemma {:induction false} ConcatFacts(pieces: seq<string>, c: char)
    ensures |Concat(pieces)| == TotalLength(pieces)
    ensures c in Concat(pieces) <==> exists i :: 0 <= i < |pieces| && c in pieces[i]
  {
    if pieces != [] {
      ConcatFacts(pieces[1..], c);
      if c in Concat(pieces[1..]) {
        var i :| 0 <= i < |pieces[1..]| && c in pieces[1..][i];
        assert c in pieces[i + 1];
      }
      if c !in pieces[0] && c !in Concat(pieces[1..]) {
        forall i | 0 <= i < |pieces| ensures c !in pieces[i] {
          if i > 0 { assert pieces[i] == pieces[1..][i - 1]; }
        }
      }
    }
  }

  /** The titled pieces of a split. */
  function TitledPieces(name: string): (ts: seq<string>)
  {
    var ps := Split(name, '_');
    seq(|ps|, i requires 0 <= i < |ps| => Title(ps[i]))
  }

  /** `snake_to_camel(name)` for ASCII `name`. */
  function SnakeToCamel(name: string): string
    requires IsAscii(name)
  {
    Concat(TitledPieces(name))
  }

  /** The result has no underscore and is as long as the name without its underscores. */
  lemma SnakeToCamelShape(name: string)
    requires IsAscii(name)
    ensures '_' !in SnakeToCamel(name)
    ensures |SnakeToCamel(name)| == |name| - Count(name, '_')
  {
    var ps := Split(name, '_');
    var ts := TitledPieces(name);
    assert TotalLength(ts) == TotalLength(ps) by {
      TitledLength(ps, ts);
    }
    SplitLength(name, '_');
    ConcatFacts(ts, '_');
  }

  /** Titling each piece keeps the total length. */
  lemma {:induction false} TitledLength(ps: seq<string>, ts: seq<string>)
    requires |ts| == |ps| && forall i :: 0 <= i < |ps| ==> ts[i] == Title(ps[i])
    ensures TotalLength(ts) == TotalLength(ps)
  {
    if ps != [] {
      TitledLength(ps[1..], ts[1..]);
    }
  }

  /** A word whose first letter is upper-cased and whose remaining letters are lower-cased. */
  function Capitalized(w: string): (r: string)
  {
    if w == [] then [] else [ToUpper(w[0])] + LowerAll(w[1..])
  }

  function LowerAll(w: string): (r: string)
  {
    if w == [] then [] else [ToLower(w[0])] + LowerAll(w[1..])
  }

  predicate AllLetters(w: string)
  {
    forall i :: 0 <= i < |w| ==> IsCased(w[i])
  }

  /** After a letter, `title` lower-cases a run of letters. */
  lemma {:induction false} TitleAfterLetter(w: string)
    requires AllLetters(w)
    ensures TitleFrom(w, true) == LowerAll(w)
  {
    if w != [] {
      TitleAfterLetter(w[1..]);
    }
  }

  /** For a name made of ASCII letters and underscores, every `_`-separated piece appears in order
      with its first letter upper-cased and the rest lower-cased. */
  lemma SnakeToCamelOfLetters(name: string)
    requires forall i :: 0 <= i < |name| ==> IsCased(name[i]) || name[i] == '_'
    ensures IsAscii(name)
    ensures var ps := Split(name, '_');
      SnakeToCamel(name) == Concat(seq(|ps|, i requires 0 <= i < |ps| => Capitalized(ps[i])))
  {
    var ps := Split(name, '_');
    var caps := seq(|ps|, i requires 0 <= i < |ps| => Capitalized(ps[i]));
    forall i | 0 <= i < |ps| ensures Title(ps[i]) == caps[i] {
      var w := ps[i];
      PiecesOfLetters(name, i);
      if w != [] {
        TitleAfterLetter(w[1..]);
        assert Title(w) == [ToUpper(w[0])] + TitleFrom(w[1..], true);
      }
    }
    assert TitledPieces(name) == caps;
  }

  /** The pieces of a split of letters and separators are made of letters. */
  lemma {:induction false} PiecesOfLetters(name: string, i: int)
    requires forall j :: 0 <= j < |name| ==> IsCased(name[j]) || name[j] == '_'
    requires 0 <= i < |Split(name, '_')|
    ensures AllLetters(Split(name, '_')[i])
  {
    if name != [] {
      var rest := Split(name[1..], '_');
      if name[0] == '_' {
        if i > 0 { PiecesOfLetters(name[1..], i - 1); }
      } else if i == 0 {
        PiecesOfLetters(name[1..], 0);
      } else {
        PiecesOfLetters(name[1..], i);
      }
    }
  }
}
