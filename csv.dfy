/**
 * The line format of the record files: fields joined by ',' with no quoting,
 * read back by repeated `std::getline(ss, token, ',')`.
 */
module Csv {

  const Comma: char := ','

  predicate NoComma(f: string) { Comma !in f }

  predicate NoCommas(fs: seq<string>) { forall i :: 0 <= i < |fs| ==> NoComma(fs[i]) }

  /**
   * The ordinary split of `s` at every comma: one more piece than there are
   * commas, and joining the pieces gives `s` back (JoinSplitOn).
   */
  function SplitOn(s: string): (parts: seq<string>)
    ensures |parts| >= 1
  {
    if s == [] then [[]] else Step(SplitOn(s[..|s| - 1]), s[|s| - 1])
  }

  /** One more character of input: a comma opens a new piece, anything else extends the last. */
  function Step(parts: seq<string>, c: char): (r: seq<string>)
    requires |parts| >= 1
    ensures |r| >= 1
  {
    if c == Comma then parts + [[]]
    else parts[..|parts| - 1] + [parts[|parts| - 1] + [c]]
  }

  lemma SplitOnSnoc(t: string, c: char)
    ensures SplitOn(t + [c]) == Step(SplitOn(t), c)
  {
    assert (t + [c])[..|t|] == t;
  }

  lemma {:induction false} SplitOnNoCommas(s: string)
    ensures NoCommas(SplitOn(s))
    decreases |s|
  {
    if s != [] {
      SplitOnNoCommas(s[..|s| - 1]);
    }
  }

  /**
   * What the `getline` loop of every `fromCSV` collects: the ordinary split,
   * except that a final empty piece is not a token (getline fails at end of
   * input when it has extracted nothing). So "" gives [], "a," gives ["a"]
   * and "a,,c" gives ["a", "", "c"].
   */
  function Tokens(s: string): seq<string>
  {
    var parts := SplitOn(s);
    if parts[|parts| - 1] == [] then parts[..|parts| - 1] else parts
  }

  /** The fields of a record joined by commas, as every `toCSV` writes them. */
  function Join(fs: seq<string>): string
  {
    if |fs| == 0 then []
    else if |fs| == 1 then fs[0]
    else Join(fs[..|fs| - 1]) + [Comma] + fs[|fs| - 1]
  }

  /** The `fromCSV` token loop: one character at a time, cutting at commas. */
  method Tokenize(line: string) returns (tokens: seq<string>)
    ensures tokens == Tokens(line)
  {
    tokens := [];
    var token := "";
    var i := 0;
    while i < |line|
      invariant 0 <= i <= |line|
      invariant tokens + [token] == SplitOn(line[..i])
    {
      assert line[..i + 1] == line[..i] + [line[i]];
      SplitOnSnoc(line[..i], line[i]);
      if line[i] == Comma {
        tokens := tokens + [token];
        token := "";
      } else {
        token := token + [line[i]];
      }
      i := i + 1;
    }
    assert line[..|line|] == line;
    if token != "" {
      tokens := tokens + [token];
    }
  }

  /** Appending comma-free text extends the last piece of the split. */
  lemma {:induction false} SplitOnAppendPlain(s: string, f: string)
    requires NoComma(f)
    ensures var p := SplitOn(s);
      SplitOn(s + f) == p[..|p| - 1] + [p[|p| - 1] + f]
    decreases |f|
  {
    var p := SplitOn(s);
    if f == [] {
      assert s + f == s;
      assert p[|p| - 1] + f == p[|p| - 1];
      assert p[..|p| - 1] + [p[|p| - 1]] == p;
    } else {
      var g, c := f[..|f| - 1], f[|f| - 1];
      assert g + [c] == f;
      assert s + f == (s + g) + [c];
      assert c != Comma && NoComma(g);
      SplitOnAppendPlain(s, g);
      SplitOnSnoc(s + g, c);
      var init := SplitOn(s + g);
      assert SplitOn(s + f) == init[..|init| - 1] + [init[|init| - 1] + [c]];
      assert init[..|init| - 1] == p[..|p| - 1];
      assert init[|init| - 1] == p[|p| - 1] + g;
      assert (p[|p| - 1] + g) + [c] == p[|p| - 1] + f;
    }
  }

  lemma SplitOnAppendComma(s: string)
    ensures SplitOn(s + [Comma]) == SplitOn(s) + [[]]
  {
    SplitOnSnoc(s, Comma);
  }

  /** Splitting the joined fields gives the fields back when none holds a comma. */
  lemma {:induction false} SplitOnJoin(fs: seq<string>)
    requires |fs| >= 1 && NoCommas(fs)
    ensures SplitOn(Join(fs)) == fs
  {
    if |fs| == 1 {
      SplitOnAppendPlain([], fs[0]);
      assert [] + fs[0] == fs[0];
    } else {
      var init := fs[..|fs| - 1];
      SplitOnJoin(init);
      SplitOnAppendComma(Join(init));
      SplitOnAppendPlain(Join(init) + [Comma], fs[|fs| - 1]);
      var q := SplitOn(Join(init) + [Comma]);
      assert q[..|q| - 1] == init;
      assert q[|q| - 1] + fs[|fs| - 1] == fs[|fs| - 1];
      assert init + [fs[|fs| - 1]] == fs;
    }
  }

  lemma JoinSnoc(fs: seq<string>, f: string)
    requires |fs| >= 1
    ensures Join(fs + [f]) == Join(fs) + [Comma] + f
  {
    assert (fs + [f])[..|fs|] == fs;
  }

  /** Joining the pieces of the split gives the line back. */
  lemma {:induction false} JoinSplitOn(s: string)
    ensures Join(SplitOn(s)) == s
    decreases |s|
  {
    if s != [] {
      var t, c := s[..|s| - 1], s[|s| - 1];
      var init := SplitOn(t);
      JoinSplitOn(t);
      assert t + [c] == s;
      SplitOnSnoc(t, c);
      if c == Comma {
        JoinSnoc(init, []);
      } else {
        var n := |init|;
        if n == 1 {
          assert init == [init[0]];
        } else {
          var front := init[..n - 1];
          assert front + [init[n - 1]] == init;
          JoinSnoc(front, init[n - 1]);
          JoinSnoc(front, init[n - 1] + [c]);
        }
      }
    }
  }

  /**
   * The round trip behind every record codec: the fields come back as tokens
   * when none holds a comma and the last one is not empty.
   */
  lemma TokensOfJoin(fs: seq<string>)
    requires |fs| >= 1 && NoCommas(fs) && fs[|fs| - 1] != []
    ensures Tokens(Join(fs)) == fs
  {
    SplitOnJoin(fs);
  }

  /** An empty last field is lost: the line reads back one token short. */
  lemma TokensDropEmptyLast(fs: seq<string>)
    requires |fs| >= 2 && NoCommas(fs) && fs[|fs| - 1] == []
    ensures Tokens(Join(fs)) == fs[..|fs| - 1]
  {
    SplitOnJoin(fs);
  }

  /** Text after a further comma only adds tokens behind the existing ones. */
  lemma {:induction false} SplitOnAppendField(a: string, b: string)
    ensures SplitOn(a + [Comma] + b) == SplitOn(a) + SplitOn(b)
    decreases |b|
  {
    if b == [] {
      assert a + [Comma] + b == a + [Comma];
      SplitOnAppendComma(a);
    } else {
      var g, c := b[..|b| - 1], b[|b| - 1];
      var ag := a + [Comma] + g;
      assert g + [c] == b;
      assert a + [Comma] + b == ag + [c];
      SplitOnAppendField(a, g);
      SplitOnSnoc(ag, c);
      SplitOnSnoc(g, c);
      StepAppend(SplitOn(a), SplitOn(g), c);
    }
  }

  lemma StepAppend(pa: seq<string>, pg: seq<string>, c: char)
    requires |pg| >= 1
    ensures Step(pa + pg, c) == pa + Step(pg, c)
  {
    if c != Comma {
      assert (pa + pg)[..|pa + pg| - 1] == pa + pg[..|pg| - 1];
    }
  }

  lemma TokensPrefix(line: string, extra: string)
    ensures Tokens(line) <= Tokens(line + [Comma] + extra)
    ensures |Tokens(line + [Comma] + extra)| >= |SplitOn(line)|
  {
    SplitOnAppendField(line, extra);
    var p, q := SplitOn(line), SplitOn(extra);
    assert Tokens(line) <= p;
    assert p <= Tokens(line + [Comma] + extra);
  }
}
