/** Text made of pieces between separators, and its taking apart. */
module Delimited {

  function Join(sep: string, pieces: seq<string>): string {
    if pieces == [] then ""
    else if |pieces| == 1 then pieces[0]
    else Join(sep, pieces[..|pieces| - 1]) + sep + pieces[|pieces| - 1]
  }

  function Split(sep: char, s: string): (pieces: seq<string>)
    ensures pieces != []
  {
    if s == "" then [""]
    else
      var front := Split(sep, s[..|s| - 1]);
      var k := |front| - 1;
      if s[|s| - 1] == sep then front + [""] else front[..k] + [front[k] + [s[|s| - 1]]]
  }

  /** The text with some characters dropped. */
  function Without(drop: set<char>, s: string): string {
    if s == "" then ""
    else Without(drop, s[..|s| - 1]) + if s[|s| - 1] in drop then "" else [s[|s| - 1]]
  }

  lemma {:induction false} SplitAppend(sep: char, s: string, t: string)
    requires sep !in t
    ensures var a := Split(sep, s); var k := |a| - 1;
            Split(sep, s + t) == a[..k] + [a[k] + t]
  {
    var a := Split(sep, s);
    var k := |a| - 1;
    if t == "" {
      assert s + t == s && a[k] + t == a[k];
      assert a == a[..k] + [a[k]];
    } else {
      var front := t[..|t| - 1];
      SplitAppend(sep, s, front);
      assert (s + t)[..|s + t| - 1] == s + front;
      assert (a[k] + front) + [t[|t| - 1]] == a[k] + t;
    }
  }

  lemma {:induction false} SplitAtSeparator(sep: char, s: string, t: string)
    requires sep !in t
    ensures Split(sep, s + [sep] + t) == Split(sep, s) + [t]
  {
    assert (s + [sep])[..|s|] == s;
    SplitAppend(sep, s + [sep], t);
    assert "" + t == t;
    assert (Split(sep, s) + [""])[..|Split(sep, s)|] == Split(sep, s);
  }

  lemma {:induction false} SplitPlain(sep: char, t: string)
    requires sep !in t
    ensures Split(sep, t) == [t]
  {
    SplitAppend(sep, "", t);
    assert "" + t == t;
  }

  /** Splitting undoes joining when no piece contains the separator. */
  lemma {:induction false} SplitJoin(sep: char, pieces: seq<string>)
    requires pieces != [] && forall i :: 0 <= i < |pieces| ==> sep !in pieces[i]
    ensures Split(sep, Join([sep], pieces)) == pieces
  {
    hide Split;
    var k := |pieces| - 1;
    if k == 0 {
      SplitPlain(sep, pieces[0]);
    } else {
      SplitJoin(sep, pieces[..k]);
      SplitAtSeparator(sep, Join([sep], pieces[..k]), pieces[k]);
    }
  }

  lemma {:induction false} JoinNonempty(sep: string, pieces: seq<string>)
    requires pieces != [] && pieces[0] != ""
    ensures Join(sep, pieces) != "" && Join(sep, pieces)[0] == pieces[0][0]
  {
    if |pieces| > 1 {
      JoinNonempty(sep, pieces[..|pieces| - 1]);
    }
  }

  lemma {:induction false} JoinSnoc(sep: string, pieces: seq<string>, piece: string)
    requires pieces != []
    ensures Join(sep, pieces + [piece]) == Join(sep, pieces) + sep + piece
  {
    assert (pieces + [piece])[..|pieces|] == pieces;
  }

  lemma {:induction false} WithoutAppend(drop: set<char>, s: string, t: string)
    ensures Without(drop, s + t) == Without(drop, s) + Without(drop, t)
  {
    if t == "" {
      assert s + t == s;
    } else {
      var front := t[..|t| - 1];
      WithoutAppend(drop, s, front);
      assert (s + t)[..|s + t| - 1] == s + front;
    }
  }

  lemma {:induction false} WithoutNothing(drop: set<char>, s: string)
    requires forall c :: c in s ==> c !in drop
    ensures Without(drop, s) == s
  {
    if s != "" {
      WithoutNothing(drop, s[..|s| - 1]);
    }
  }
}
