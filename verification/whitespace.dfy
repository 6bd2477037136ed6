/** `" ".join(text.split())`: the page text with every run of whitespace
    turned into one space and none at either end. */
module Whitespace {
  import opened Text

  /** A piece `str.split()` can return: non-empty, without whitespace. */
  predicate IsField(w: string) {
    w != [] && forall k :: 0 <= k < |w| ==> !IsSpace(w[k])
  }

  /** The length of the leading run of non-whitespace characters. */
  function FieldLen(s: string): (n: nat)
    ensures n <= |s|
    ensures forall k :: 0 <= k < n ==> !IsSpace(s[k])
    ensures n < |s| ==> IsSpace(s[n])
  {
    if s == [] || IsSpace(s[0]) then 0 else 1 + FieldLen(s[1..])
  }

  /** `s.split()`: the maximal runs of non-whitespace, in order. */
  function Split(s: string): (ws: seq<string>)
    ensures forall w :: w in ws ==> IsField(w)
    decreases |s|
  {
    if s == [] then []
    else if IsSpace(s[0]) then Split(s[1..])
    else
      var n := FieldLen(s);
      [s[..n]] + Split(s[n..])
  }

  /** `" ".join(ws)`. */
  function Join(ws: seq<string>): string {
    if ws == [] then []
    else if |ws| == 1 then ws[0]
    else ws[0] + " " + Join(ws[1..])
  }

  /** The non-whitespace characters of `s`, in order. */
  function NonSpace(s: string): string
    decreases |s|
  {
    if s == [] then [] else (if IsSpace(s[0]) then [] else [s[0]]) + NonSpace(s[1..])
  }

  /** The pieces glued together with nothing between them. */
  function Flatten(ws: seq<string>): string
    decreases |ws|
  {
    if ws == [] then [] else ws[0] + Flatten(ws[1..])
  }

  lemma {:induction false} NonSpaceAppend(a: string, b: string)
    ensures NonSpace(a + b) == NonSpace(a) + NonSpace(b)
    decreases |a|
  {
    if a == [] {
      assert a + b == b;
    } else {
      assert (a + b)[1..] == a[1..] + b;
      NonSpaceAppend(a[1..], b);
    }
  }

  lemma {:induction false} NonSpaceOfField(w: string)
    requires forall k :: 0 <= k < |w| ==> !IsSpace(w[k])
    ensures NonSpace(w) == w
    decreases |w|
  {
    if w != [] {
      NonSpaceOfField(w[1..]);
      assert w == [w[0]] + w[1..];
    }
  }

  /** `str.split()` drops nothing but whitespace: its fields, glued
      together, are the non-whitespace characters of `s` in order. */
  lemma {:induction false} SplitKeepsText(s: string)
    ensures Flatten(Split(s)) == NonSpace(s)
    decreases |s|
  {
    if s != [] {
      if IsSpace(s[0]) {
        SplitKeepsText(s[1..]);
      } else {
        var n := FieldLen(s);
        SplitKeepsText(s[n..]);
        assert s == s[..n] + s[n..];
        NonSpaceAppend(s[..n], s[n..]);
        NonSpaceOfField(s[..n]);
        assert ([s[..n]] + Split(s[n..]))[1..] == Split(s[n..]);
      }
    }
  }

  /** The leading field of `a` is not changed by what follows it, when `a`
      has whitespace after its field or what follows starts with whitespace. */
  lemma {:induction false} FieldLenPrefix(a: string, x: string)
    requires FieldLen(a) < |a| || x == [] || IsSpace(x[0])
    ensures FieldLen(a + x) == FieldLen(a)
    decreases |a|
  {
    if a == [] {
      assert a + x == x;
    } else if !IsSpace(a[0]) {
      assert (a + x)[1..] == a[1..] + x;
      FieldLenPrefix(a[1..], x);
    }
  }

  /** A field, then whitespace: the field comes off first. */
  lemma SplitFieldThenSpace(a: string, c: char, b: string)
    requires IsField(a) && IsSpace(c)
    ensures Split(a + [c] + b) == [a] + Split(b)
  {
    var t := a + [c] + b;
    FieldLenOfField(a, [c] + b);
    assert t == a + ([c] + b);
    assert t[..|a|] == a && t[|a|..] == [c] + b;
    assert ([c] + b)[1..] == b;
  }

  /** Text whose first field stops before its end: that field comes off
      first, also with more text after it. */
  lemma SplitLongerThanField(a: string, c: char, b: string, n: nat)
    requires a != [] && !IsSpace(a[0]) && n == FieldLen(a) < |a|
    requires Split(a[n..] + [c] + b) == Split(a[n..]) + Split(b)
    ensures Split(a + [c] + b) == Split(a) + Split(b)
  {
    var t := a + [c] + b;
    FieldLenPrefix(a, [c] + b);
    assert t == a + ([c] + b) && t[0] == a[0];
    assert t[..n] == a[..n] && t[n..] == a[n..] + [c] + b;
    calc {
      Split(t);
      [t[..n]] + Split(t[n..]);
      [a[..n]] + (Split(a[n..]) + Split(b));
      ([a[..n]] + Split(a[n..])) + Split(b);
      Split(a) + Split(b);
    }
  }

  /** Whitespace always separates: the text on either side of a whitespace
      character is split on its own, and the fields are concatenated. */
  lemma {:induction false} SplitAtSpace(a: string, c: char, b: string)
    requires IsSpace(c)
    ensures Split(a + [c] + b) == Split(a) + Split(b)
    decreases |a|
  {
    if a == [] {
      assert (a + [c] + b)[1..] == b;
    } else if IsSpace(a[0]) {
      assert (a + [c] + b)[1..] == a[1..] + [c] + b;
      SplitAtSpace(a[1..], c, b);
    } else {
      var n := FieldLen(a);
      if n == |a| {
        SplitField(a);
        SplitFieldThenSpace(a, c, b);
      } else {
        SplitAtSpace(a[n..], c, b);
        SplitLongerThanField(a, c, b, n);
      }
    }
  }

  lemma {:induction false} JoinKeepsText(ws: seq<string>)
    requires forall w :: w in ws ==> IsField(w)
    ensures NonSpace(Join(ws)) == Flatten(ws)
    decreases |ws|
  {
    if ws != [] {
      assert IsField(ws[0]);
      NonSpaceOfField(ws[0]);
      var w, rest := ws[0], ws[1..];
      assert Flatten(ws) == w + Flatten(rest);
      if |ws| == 1 {
        assert Join(ws) == w && Flatten(rest) == [];
      } else {
        assert forall v :: v in rest ==> v in ws;
        JoinKeepsText(rest);
        assert Join(ws) == (w + " ") + Join(rest);
        NonSpaceAppend(w + " ", Join(rest));
        NonSpaceAppend(w, " ");
        assert NonSpace(" ") == [] by { assert " "[1..] == []; }
      }
    }
  }

  /** `" ".join(text.split())` keeps every non-whitespace character, in order. */
  function Collapse(s: string): (r: string)
    ensures NonSpace(r) == NonSpace(s)
  {
    SplitKeepsText(s);
    JoinKeepsText(Split(s));
    Join(Split(s))
  }

  /** The shape of collapsed text: no whitespace at either end, no two
      spaces in a row, and no whitespace other than the plain space. */
  predicate Collapsed(t: string) {
    && (t != [] ==> !IsSpace(t[0]) && !IsSpace(t[|t| - 1]))
    && (forall k :: 0 <= k < |t| && IsSpace(t[k]) ==> t[k] == ' ')
    && (forall k :: 0 <= k < |t| - 1 ==> !(IsSpace(t[k]) && IsSpace(t[k + 1])))
  }

  /** Joining fields with single spaces gives collapsed text. */
  lemma {:induction false} JoinCollapsed(ws: seq<string>)
    requires forall w :: w in ws ==> IsField(w)
    ensures Collapsed(Join(ws))
    ensures ws != [] ==> Join(ws) != []
  {
    if |ws| > 1 {
      JoinCollapsed(ws[1..]);
      var w, rest := ws[0], Join(ws[1..]);
      assert IsField(w);
      var t := w + " " + rest;
      assert Join(ws) == t;
      forall k | 0 <= k < |t| && IsSpace(t[k]) ensures t[k] == ' ' {
        if k > |w| { assert t[k] == rest[k - |w| - 1]; }
      }
      forall k | 0 <= k < |t| - 1 ensures !(IsSpace(t[k]) && IsSpace(t[k + 1])) {
        if k > |w| { assert t[k] == rest[k - |w| - 1] && t[k + 1] == rest[k - |w|]; }
      }
      assert t[|t| - 1] == rest[|rest| - 1];
    } else if |ws| == 1 {
      assert IsField(ws[0]);
    }
  }

  /** The collapsed text has the collapsed shape. */
  lemma CollapseIsCollapsed(s: string)
    ensures Collapsed(Collapse(s))
  {
    JoinCollapsed(Split(s));
  }

  /** A single field splits into itself. */
  lemma SplitField(w: string)
    requires IsField(w)
    ensures Split(w) == [w]
  {
    FieldLenOfField(w, []);
    assert w + [] == w;
    assert w[..|w|] == w && w[|w|..] == [];
    assert Split(w) == [w[..|w|]] + Split(w[|w|..]);
  }

  /** A field, a space, then anything: the field comes off first. */
  lemma SplitFieldSpace(w: string, rest: string)
    requires IsField(w)
    ensures Split(w + " " + rest) == [w] + Split(rest)
  {
    var t := w + " " + rest;
    FieldLenOfField(w, " " + rest);
    assert t == w + (" " + rest);
    assert t[..|w|] == w;
    assert t[|w|..] == " " + rest;
    assert (" " + rest)[1..] == rest;
  }

  /** Splitting what was joined gives back the fields. */
  lemma {:induction false} SplitJoin(ws: seq<string>)
    requires forall w :: w in ws ==> IsField(w)
    ensures Split(Join(ws)) == ws
  {
    if |ws| == 1 {
      SplitField(ws[0]);
    } else if |ws| > 1 {
      SplitFieldSpace(ws[0], Join(ws[1..]));
      SplitJoin(ws[1..]);
      assert ws == [ws[0]] + ws[1..];
    }
  }

  /** A field followed by whitespace or nothing is exactly one field long. */
  lemma {:induction false} FieldLenOfField(w: string, tail: string)
    requires IsField(w)
    requires tail == [] || IsSpace(tail[0])
    ensures FieldLen(w + tail) == |w|
    decreases |w|
  {
    if |w| > 1 {
      assert (w + tail)[1..] == w[1..] + tail;
      FieldLenOfField(w[1..], tail);
    } else {
      assert (w + tail)[1..] == tail;
    }
  }

  /** Collapsing keeps the sequence of words. */
  lemma SplitCollapse(s: string)
    ensures Split(Collapse(s)) == Split(s)
  {
    SplitJoin(Split(s));
  }

  /** In collapsed text, a field that stops short of the end is followed by
      one space and then more collapsed text that starts with a field. */
  lemma CollapsedAfterField(t: string, n: nat)
    requires Collapsed(t) && n == FieldLen(t) && n < |t|
    ensures t[n] == ' ' && n + 1 < |t|
    ensures Collapsed(t[n + 1..]) && !IsSpace(t[n + 1])
  {
    assert IsSpace(t[n]) && n != |t| - 1;
    assert !IsSpace(t[n + 1]) by { assert !(IsSpace(t[n]) && IsSpace(t[n + 1])); }
    var rest := t[n + 1..];
    assert rest[0] == t[n + 1] && rest[|rest| - 1] == t[|t| - 1];
    forall k | 0 <= k < |rest| && IsSpace(rest[k]) ensures rest[k] == ' ' {
      assert rest[k] == t[n + 1 + k];
    }
    forall k | 0 <= k < |rest| - 1 ensures !(IsSpace(rest[k]) && IsSpace(rest[k + 1])) {
      assert rest[k] == t[n + 1 + k] && rest[k + 1] == t[n + 2 + k];
    }
  }

  /** Splitting text that starts with a field followed by whitespace. */
  lemma SplitAtField(t: string, n: nat)
    requires t != [] && !IsSpace(t[0]) && n == FieldLen(t) && n < |t|
    ensures Split(t) == [t[..n]] + Split(t[n + 1..])
  {
    assert t[n..][1..] == t[n + 1..];
  }

  lemma JoinCons(w: string, ws: seq<string>)
    requires ws != []
    ensures Join([w] + ws) == w + " " + Join(ws)
  {
    assert ([w] + ws)[1..] == ws;
  }

  /** A single field is its own collapse. */
  lemma CollapseField(t: string)
    requires t != [] && FieldLen(t) == |t|
    ensures Collapse(t) == t
  {
    assert t[..|t|] == t && t[|t|..] == [];
    assert Split(t) == [t] by {
      assert Split(t) == [t[..|t|]] + Split(t[|t|..]);
    }
  }

  /** Cutting at a space and gluing the halves back with a space changes nothing. */
  lemma RejoinAtSpace(t: string, n: nat)
    requires n < |t| && t[n] == ' '
    ensures t[..n] + " " + t[n + 1..] == t
  {
    assert t[..n] + " " == t[..n + 1];
    assert t[..n + 1] + t[n + 1..] == t;
  }

  /** A field, one space, then text that is its own collapse. */
  lemma CollapseFieldThenRest(t: string, n: nat)
    requires t != [] && !IsSpace(t[0]) && n == FieldLen(t) && n < |t| && t[n] == ' '
    requires Collapse(t[n + 1..]) == t[n + 1..] != []
    ensures Collapse(t) == t
  {
    var rest := t[n + 1..];
    calc {
      Collapse(t);
      { SplitAtField(t, n); }
      Join([t[..n]] + Split(rest));
      { JoinCons(t[..n], Split(rest)); }
      t[..n] + " " + rest;
      { RejoinAtSpace(t, n); }
      t;
    }
  }

  /** Collapsed text is left alone by collapsing. */
  lemma {:induction false} CollapseFixesCollapsed(t: string)
    requires Collapsed(t)
    ensures Collapse(t) == t
    decreases |t|
  {
    if t != [] {
      var n := FieldLen(t);
      if n == |t| {
        CollapseField(t);
      } else {
        CollapsedAfterField(t, n);
        CollapseFixesCollapsed(t[n + 1..]);
        CollapseFieldThenRest(t, n);
      }
    }
  }

  /** Collapsing twice is collapsing once. */
  lemma CollapseIdempotent(s: string)
    ensures Collapse(Collapse(s)) == Collapse(s)
  {
    CollapseIsCollapsed(s);
    CollapseFixesCollapsed(Collapse(s));
  }
}
