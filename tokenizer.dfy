/**
 * The text handling behind the word index and the search form: PHP's
 * `explode`/`implode` on one space, the regular-expression rewrites of
 * Post::_prepareWords, a `strip_tags` reduced to plain tags, and the
 * tag-word extraction itself.
 */
module Tokenizer {

  /** PCRE `\s` without the UTF flag: space, tab, line feed, vertical tab, form feed, carriage return. */
  predicate IsSpace(c: char)
  {
    c == ' ' || c == '\t' || c == '\n' || c as int == 11 || c as int == 12 || c == '\r'
  }

  // ---------------------------------------------------------------------
  // explode(' ', s) and implode(' ', pieces)
  // ---------------------------------------------------------------------

  /** `explode(' ', s)`: the pieces between single spaces, empty ones included. */
  function Split(s: string): (r: seq<string>)
    ensures |r| >= 1
    ensures forall i :: 0 <= i < |r| ==> ' ' !in r[i]
    decreases |s|
  {
    if s == [] then [""]
    else if s[0] == ' ' then [""] + Split(s[1..])
    else
      var rest := Split(s[1..]);
      [[s[0]] + rest[0]] + rest[1..]
  }

  /** `implode(' ', pieces)`. */
  function Join(pieces: seq<string>): string
  {
    if pieces == [] then ""
    else if |pieces| == 1 then pieces[0]
    else pieces[0] + " " + Join(pieces[1..])
  }

  lemma {:induction false} JoinSplit(s: string)
    ensures Join(Split(s)) == s
    decreases |s|
  {
    if s == [] {
    } else if s[0] == ' ' {
      JoinSplit(s[1..]);
      assert Split(s) == [""] + Split(s[1..]);
      assert s == [' '] + s[1..];
    } else {
      var rest := Split(s[1..]);
      JoinSplit(s[1..]);
      assert s == [s[0]] + s[1..];
      if |rest| == 1 {
        assert Split(s) == [[s[0]] + rest[0]];
      } else {
        assert Split(s)[1..] == rest[1..];
        assert Join(Split(s)) == [s[0]] + rest[0] + " " + Join(rest[1..]);
      }
    }
  }

  /** Exploding what was imploded gives back the pieces, as long as none holds a space. */
  lemma {:induction false} SplitJoin(pieces: seq<string>)
    requires |pieces| >= 1
    requires forall i :: 0 <= i < |pieces| ==> ' ' !in pieces[i]
    ensures Split(Join(pieces)) == pieces
    decreases |pieces|, |pieces[0]|
  {
    var p := pieces[0];
    if |pieces| == 1 {
      SplitWord(p);
    } else if p == [] {
      var rest := pieces[1..];
      SplitJoin(rest);
      assert Join(pieces) == " " + Join(rest);
      assert (" " + Join(rest))[1..] == Join(rest);
    } else {
      var shorter := [p[1..]] + pieces[1..];
      SplitJoin(shorter);
      assert Join(pieces) == [p[0]] + Join(shorter) by {
        assert p == [p[0]] + p[1..];
        assert shorter[1..] == pieces[1..];
      }
      assert ([p[0]] + Join(shorter))[1..] == Join(shorter);
    }
  }

  /** A word without spaces explodes to itself. */
  lemma {:induction false} SplitWord(w: string)
    requires ' ' !in w
    ensures Split(w) == [w]
    decreases |w|
  {
    if w != [] {
      assert ' ' !in w[1..] by {
        forall i | 0 <= i < |w[1..]| ensures w[1..][i] != ' ' {
          assert w[1..][i] == w[i + 1];
        }
      }
      SplitWord(w[1..]);
      assert w == [w[0]] + w[1..];
    }
  }

  // ---------------------------------------------------------------------
  // The rewrites of Post::_prepareWords
  // ---------------------------------------------------------------------

  /** `preg_replace('/\n/', ' ', s)`. */
  function NewlinesToSpaces(s: string): (r: string)
    ensures |r| == |s| && '\n' !in r
  {
    seq(|s|, i requires 0 <= i < |s| => if s[i] == '\n' then ' ' else s[i])
  }

  /** The length of a match of `/\<br ?\/?\>/i` at the start of s, if there is one. */
  function BreakAt(s: string): (n: nat)
    ensures n == 0 || 4 <= n <= |s|
  {
    if |s| >= 3 && s[0] == '<' && (s[1] == 'b' || s[1] == 'B') && (s[2] == 'r' || s[2] == 'R') then
      var a := if |s| > 3 && s[3] == ' ' then 4 else 3;
      var b := if |s| > a && s[a] == '/' then a + 1 else a;
      if |s| > b && s[b] == '>' then b + 1 else 0
    else 0
  }

  /** `preg_replace('/\<br ?\/?\>/i', ' ', s)`: every line-break tag becomes one space. */
  function BreaksToSpaces(s: string): (r: string)
    ensures |r| <= |s|
    decreases |s|
  {
    if s == [] then ""
    else if BreakAt(s) > 0 then " " + BreaksToSpaces(s[BreakAt(s)..])
    else [s[0]] + BreaksToSpaces(s[1..])
  }

  /**
   * A line-break tag as the pattern matches it: `<br`, in either letter case,
   * then an optional space, an optional `/` and `>`.
   */
  predicate IsBreakTag(b: string)
  {
    && |b| >= 4 && b[0] == '<' && (b[1] == 'b' || b[1] == 'B') && (b[2] == 'r' || b[2] == 'R')
    && b[3..] in {">", "/>", " >", " />"}
  }

  /** A line-break tag becomes one space, whatever follows it. */
  lemma BreakBecomesSpace(b: string, t: string)
    requires IsBreakTag(b)
    ensures BreaksToSpaces(b + t) == " " + BreaksToSpaces(t)
  {
    var s := b + t;
    assert s[..|b|] == b;
    assert s[|b|..] == t;
    assert forall i :: 0 <= i < |b| ==> s[i] == b[i];
    var tail := b[3..];
    assert tail[0] == b[3];
    if |tail| > 1 {
      assert tail[1] == b[4];
    }
    if |tail| > 2 {
      assert tail[2] == b[5];
    }
    assert BreakAt(s) == |b|;
  }

  /** Any character that does not start a line-break tag is kept as it is. */
  lemma OtherCharKept(c: char, t: string)
    requires BreakAt([c] + t) == 0
    ensures BreaksToSpaces([c] + t) == [c] + BreaksToSpaces(t)
  {
    assert ([c] + t)[1..] == t;
  }

  /** Text without `<` holds no line-break tag and is left unchanged. */
  lemma {:induction false} NoBreakUnchanged(s: string)
    requires '<' !in s
    ensures BreaksToSpaces(s) == s
  {
    if s != [] {
      assert s[0] == '<' ==> '<' in s;
      assert '<' !in s[1..] by {
        forall i | 0 <= i < |s[1..]| ensures s[1..][i] != '<' {
          assert s[1..][i] == s[i + 1];
        }
      }
      NoBreakUnchanged(s[1..]);
      assert s == [s[0]] + s[1..];
    }
  }

  /**
   * `strip_tags` on plain tags: a `<` not followed by white space opens a tag
   * that runs to the next `>`, or to the end of the text when none follows;
   * the tag is dropped.
   */
  function StripTags(s: string): (r: string)
    ensures |r| <= |s|
    decreases |s|
  {
    if s == [] then ""
    else if s[0] == '<' && !(|s| > 1 && IsSpace(s[1])) then StripTags(SkipTag(s[1..]))
    else [s[0]] + StripTags(s[1..])
  }
  /** Text without `<` holds no tag and is left unchanged. */
  lemma {:induction false} NoTagUnchanged(s: string)
    requires '<' !in s
    ensures StripTags(s) == s
  {
    if s != [] {
      assert s[0] == '<' ==> '<' in s;
      assert '<' !in s[1..] by {
        forall i | 0 <= i < |s[1..]| ensures s[1..][i] != '<' {
          assert s[1..][i] == s[i + 1];
        }
      }
      NoTagUnchanged(s[1..]);
      assert s == [s[0]] + s[1..];
    }
  }


  /** What follows the `>` that closes the tag, or nothing when the tag is never closed. */
  function SkipTag(s: string): (r: string)
    ensures |r| <= |s|
    decreases |s|
  {
    if s == [] then ""
    else if s[0] == '>' then s[1..]
    else SkipTag(s[1..])
  }

  /** Every `<` that survives is followed by white space. */
  lemma {:induction false} StripTagsLeavesNoTag(s: string)
    ensures forall i :: 0 <= i < |StripTags(s)| && StripTags(s)[i] == '<' ==>
      i + 1 < |StripTags(s)| && IsSpace(StripTags(s)[i + 1])
    decreases |s|
  {
    if s == [] {
    } else if s[0] == '<' && !(|s| > 1 && IsSpace(s[1])) {
      StripTagsLeavesNoTag(SkipTag(s[1..]));
    } else {
      var rest := StripTags(s[1..]);
      StripTagsLeavesNoTag(s[1..]);
      if s[0] == '<' {
        StripTagsKeepsHead(s[1..]);
      }
    }
  }

  /** Text starting with white space keeps that character first. */
  lemma StripTagsKeepsHead(s: string)
    requires |s| > 0 && IsSpace(s[0])
    ensures |StripTags(s)| > 0 && StripTags(s)[0] == s[0]
  {
  }

  /** `preg_replace('/\s/', ' ', s)`. */
  function SpacesOnly(s: string): (r: string)
    ensures |r| == |s|
    ensures forall i :: 0 <= i < |r| ==> (IsSpace(r[i]) ==> r[i] == ' ')
  {
    seq(|s|, i requires 0 <= i < |s| => if IsSpace(s[i]) then ' ' else s[i])
  }

  // ---------------------------------------------------------------------
  // array_unique and the length filter
  // ---------------------------------------------------------------------

  /** `array_unique`: the first occurrence of each value, in order. */
  function Unique(ws: seq<string>): (r: seq<string>)
    ensures forall i, j :: 0 <= i < j < |r| ==> r[i] != r[j]
    ensures forall w :: w in r <==> w in ws
    decreases |ws|
  {
    if ws == [] then []
    else
      var r := Unique(ws[..|ws| - 1]);
      assert forall w :: w in ws <==> w in ws[..|ws| - 1] || w == ws[|ws| - 1];
      if ws[|ws| - 1] in r then r else r + [ws[|ws| - 1]]
  }

  /** The words the index keeps: from 3 to 255 characters. */
  predicate Indexable(w: string)
  {
    2 < |w| <= 255
  }

  function KeepIndexable(ws: seq<string>): (r: seq<string>)
    ensures forall w :: w in r <==> w in ws && Indexable(w)
    ensures forall i, j :: 0 <= i < |r| && 0 <= j < |r| && i != j && (forall a, b :: 0 <= a < b < |ws| ==> ws[a] != ws[b]) ==> r[i] != r[j]
    decreases |ws|
  {
    if ws == [] then []
    else
      var rest := KeepIndexable(ws[1..]);
      assert forall w :: w in ws <==> w == ws[0] || w in ws[1..];
      if Indexable(ws[0]) then [ws[0]] + rest else rest
  }

  /** The text `_prepareWords` explodes. */
  function Flatten(content: string): (r: string)
    ensures |r| <= |content|
  {
    SpacesOnly(StripTags(BreaksToSpaces(NewlinesToSpaces(content))))
  }

  /** Post::_prepareWords: the distinct space-free pieces of the flattened content that the index keeps. */
  function PrepareWords(content: string): seq<string>
  {
    KeepIndexable(Unique(Split(Flatten(content))))
  }

  /**
   * The tag words are exactly the indexable pieces of the flattened text,
   * each once, none holding white space.
   */
  lemma PrepareWordsSpec(content: string)
    ensures var ws := PrepareWords(content);
      && (forall w :: w in ws <==> w in Split(Flatten(content)) && Indexable(w))
      && (forall i, j :: 0 <= i < j < |ws| ==> ws[i] != ws[j])
      && (forall i :: 0 <= i < |ws| ==> 2 < |ws[i]| <= 255 && forall k :: 0 <= k < |ws[i]| ==> !IsSpace(ws[i][k]))
  {
    var pieces := Split(Flatten(content));
    var ws := PrepareWords(content);
    forall i | 0 <= i < |ws| ensures 2 < |ws[i]| <= 255 && forall k :: 0 <= k < |ws[i]| ==> !IsSpace(ws[i][k]) {
      assert ws[i] in ws;
      assert ws[i] in pieces && Indexable(ws[i]);
      var j :| 0 <= j < |pieces| && pieces[j] == ws[i];
      PiecesAreWordsOf(Flatten(content), j);
    }
  }

  /** Every piece of an exploded text is a run of its characters, so it holds no other white space than the text. */
  lemma PiecesAreWordsOf(s: string, j: int)
    requires forall i :: 0 <= i < |s| ==> (IsSpace(s[i]) ==> s[i] == ' ')
    requires 0 <= j < |Split(s)|
    ensures forall k :: 0 <= k < |Split(s)[j]| ==> !IsSpace(Split(s)[j][k])
  {
    PiecesHoldTextCharacters(s);
  }

  lemma {:induction false} PiecesHoldTextCharacters(s: string)
    ensures forall j, k :: 0 <= j < |Split(s)| && 0 <= k < |Split(s)[j]| ==> Split(s)[j][k] in s
    decreases |s|
  {
    if s != [] {
      PiecesHoldTextCharacters(s[1..]);
      assert forall c :: c in s[1..] ==> c in s;
    }
  }

  // ---------------------------------------------------------------------
  // The query of the search form
  // ---------------------------------------------------------------------

  /** The text after its leading white space. */
  function SkipSpaces(s: string): (r: string)
    ensures |r| <= |s|
    ensures r == [] || !IsSpace(r[0])
    decreases |s|
  {
    if s != [] && IsSpace(s[0]) then SkipSpaces(s[1..]) else s
  }

  /** `preg_replace('/\s+/', ' ', s)`: every run of white space becomes one space. */
  function Collapse(s: string): (r: string)
    ensures |r| <= |s|
    decreases |s|
  {
    if s == [] then s
    else if IsSpace(s[0]) then " " + Collapse(SkipSpaces(s[1..]))
    else [s[0]] + Collapse(s[1..])
  }

  /** After collapsing, the only white space left is single spaces. */
  lemma {:induction false} CollapseLeavesSingleSpaces(s: string)
    ensures var r := Collapse(s);
      && (forall i :: 0 <= i < |r| && IsSpace(r[i]) ==> r[i] == ' ')
      && (forall i :: 0 <= i < |r| - 1 ==> !(r[i] == ' ' && r[i + 1] == ' '))
    decreases |s|
  {
    if s == [] {
    } else if IsSpace(s[0]) {
      var t := SkipSpaces(s[1..]);
      CollapseLeavesSingleSpaces(t);
      if t != [] {
        CollapseKeepsHead(t);
      }
      var r := Collapse(s);
      assert forall i :: 1 <= i < |r| ==> r[i] == Collapse(t)[i - 1];
    } else {
      CollapseLeavesSingleSpaces(s[1..]);
      var r := Collapse(s);
      assert forall i :: 1 <= i < |r| ==> r[i] == Collapse(s[1..])[i - 1];
    }
  }

  /** Text that does not start with white space keeps its first character. */
  lemma CollapseKeepsHead(s: string)
    requires s != [] && !IsSpace(s[0])
    ensures Collapse(s) != [] && Collapse(s)[0] == s[0]
  {
  }

  /** Collapsing changes nothing in text without white space. */
  lemma {:induction false} CollapseWord(s: string)
    requires forall i :: 0 <= i < |s| ==> !IsSpace(s[i])
    ensures Collapse(s) == s
    decreases |s|
  {
    if s != [] {
      CollapseWord(s[1..]);
    }
  }
}
