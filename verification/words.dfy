/**
 * fn_str_limit_words: cut a text to its first `max` words, the words
 * being what preg_split('/\s+/') makes of the trimmed text.
 *
 * trim() and PCRE `\s` do not strip the same characters (trim takes NUL,
 * `\s` takes form feed), so a text that starts with a form feed has an
 * empty first word; the model keeps that.
 */
module Words {
  import opened Text

  predicate SpaceFree(w: string) {
    forall i :: 0 <= i < |w| ==> !RegexSpace(w[i])
  }

  /**
   * preg_split('/\s+/', s): the pieces between maximal runs of `\s`.
   * No piece holds a space, and only the first and the last can be empty.
   */
  function SplitSpace(s: string): (ws: seq<string>)
    ensures |ws| >= 1
    ensures forall i :: 0 <= i < |ws| ==> SpaceFree(ws[i])
    ensures forall i :: 0 < i < |ws| - 1 ==> ws[i] != ""
    ensures |s| > 0 && !RegexSpace(s[0]) ==> ws[0] != ""
    decreases |s|
  {
    if |s| == 0 then [""]
    else if RegexSpace(s[0]) then [""] + SplitSpace(SkipLeadingSpace(s[1..]))
    else
      var rest := SplitSpace(s[1..]);
      [[s[0]] + rest[0]] + rest[1..]
  }

  /** A single space after a space-free word closes exactly that word. */
  lemma {:induction false} SplitSpaceConcat(a: string, b: string)
    requires SpaceFree(a)
    requires |b| > 0 ==> !RegexSpace(b[0])
    ensures SplitSpace(a + " " + b) == [a] + SplitSpace(b)
    decreases |a|
  {
    var s := a + " " + b;
    if |a| == 0 {
      assert s == " " + b;
      assert s[1..] == b;
    } else {
      assert s[0] == a[0];
      assert s[1..] == a[1..] + " " + b;
      assert SpaceFree(a[1..]) by {
        assert forall i :: 0 <= i < |a| - 1 ==> a[1..][i] == a[i + 1];
      }
      SplitSpaceConcat(a[1..], b);
      assert [a[0]] + a[1..] == a;
    }
  }

  lemma {:induction false} SplitSpaceOfWord(w: string)
    requires SpaceFree(w)
    ensures SplitSpace(w) == [w]
    decreases |w|
  {
    if |w| > 0 {
      assert SpaceFree(w[1..]) by {
        assert forall i :: 0 <= i < |w| - 1 ==> w[1..][i] == w[i + 1];
      }
      SplitSpaceOfWord(w[1..]);
      assert [w[0]] + w[1..] == w;
    }
  }

  /** Words joined by single spaces split back into the same words. */
  lemma {:induction false} SplitSpaceJoin(ws: seq<string>)
    requires |ws| >= 1
    requires forall i :: 0 <= i < |ws| ==> SpaceFree(ws[i])
    requires forall i :: 0 < i < |ws| ==> ws[i] != ""
    ensures SplitSpace(Join(ws, " ")) == ws
    decreases |ws|
  {
    if |ws| == 1 {
      SplitSpaceOfWord(ws[0]);
    } else {
      var tail := ws[1..];
      assert forall i :: 0 <= i < |tail| ==> tail[i] == ws[i + 1];
      SplitSpaceJoin(tail);
      JoinStartsWith(tail);
      SplitSpaceConcat(ws[0], Join(tail, " "));
    }
  }

  lemma {:induction false} JoinStartsWith(ws: seq<string>)
    requires |ws| >= 1 && ws[0] != ""
    ensures |Join(ws, " ")| > 0 && Join(ws, " ")[0] == ws[0][0]
  {
  }

  /** `array_slice($words, 0, $n)`: a negative n drops that many from the end. */
  function Slice(ws: seq<string>, n: int): (r: seq<string>)
    ensures |r| <= |ws| && r == ws[..|r|]
    ensures n >= 0 ==> |r| == if n <= |ws| then n else |ws|
    ensures n < 0 ==> |r| == if |ws| + n >= 0 then |ws| + n else 0
  {
    if n >= 0 then (if n <= |ws| then ws[..n] else ws)
    else if |ws| + n >= 0 then ws[..|ws| + n] else []
  }

  function WordsOf(text: string): seq<string> {
    SplitSpace(TrimDefault(text))
  }

  /** A text of at most `max` words comes back unchanged; a longer one is cut and gets '...'. */
  function LimitWords(text: string, max: int): (r: string)
    ensures |WordsOf(text)| <= max ==> r == text
    ensures |WordsOf(text)| > max ==> EndsWith(r, "...")
  {
    var words := WordsOf(text);
    if |words| <= max then text else Join(Slice(words, max), " ") + "..."
  }

  /** The cut text, before its '...', holds exactly the first `max` words. */
  lemma LimitWordsKeepsFirst(text: string, max: int)
    requires 1 <= max < |WordsOf(text)|
    ensures var r := LimitWords(text, max);
      |r| >= 3 && SplitSpace(r[..|r| - 3]) == WordsOf(text)[..max]
  {
    var words := WordsOf(text);
    var kept := words[..max];
    var r := LimitWords(text, max);
    assert r == Join(kept, " ") + "...";
    assert r[..|r| - 3] == Join(kept, " ");
    assert forall i :: 0 < i < |kept| ==> kept[i] == words[i];
    SplitSpaceJoin(kept);
  }
}
