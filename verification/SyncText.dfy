/**
 The text normaliser behind sync hashes. It identifies exactly the texts that differ in line endings, blanks at line
 ends and newlines at the end of the text; `Edit` lists those differences one at a time.
 */
module SyncText {

  type Text = seq<char>

  // --------------------------------------------------------------- the functions

  /** `replace('\r\n', '\n')` */
  function ReplaceCrLf(s: Text): Text {
    if s == [] then []
    else if |s| >= 2 && s[0] == '\r' && s[1] == '\n' then ['\n'] + ReplaceCrLf(s[2..])
    else [s[0]] + ReplaceCrLf(s[1..])
  }

  /** `replace('\r', '\n')` */
  function ReplaceCr(s: Text): Text {
    if s == [] then [] else [if s[0] == '\r' then '\n' else s[0]] + ReplaceCr(s[1..])
  }

  /** `split('\n')` */
  function Lines(s: Text): (ls: seq<Text>)
    ensures ls != []
  {
    if s == [] then [[]]
    else
      var rest := Lines(s[1..]);
      if s[0] == '\n' then [[]] + rest else [[s[0]] + rest[0]] + rest[1..]
  }

  predicate Blank(c: char) {
    c == ' ' || c == '\t'
  }

  /** `rstrip(' \t')` */
  function TrimLine(line: Text): Text {
    if line != [] && Blank(line[|line| - 1]) then TrimLine(line[..|line| - 1]) else line
  }

  function TrimLines(ls: seq<Text>): (r: seq<Text>)
    ensures |r| == |ls|
  {
    if ls == [] then [] else [TrimLine(ls[0])] + TrimLines(ls[1..])
  }

  /** `'\n'.join(...)` */
  function Join(separator: char, parts: seq<Text>): Text {
    if parts == [] then []
    else if |parts| == 1 then parts[0]
    else parts[0] + [separator] + Join(separator, parts[1..])
  }

  /** `rstrip('\n')` */
  function TrimEnd(s: Text): Text {
    if s != [] && s[|s| - 1] == '\n' then TrimEnd(s[..|s| - 1]) else s
  }

  function Normalize(text: Text): Text {
    TrimEnd(Join('\n', TrimLines(Lines(ReplaceCr(ReplaceCrLf(text)))))) + ['\n']
  }

  function NormalizeAll(parts: seq<Text>): (r: seq<Text>)
    ensures |r| == |parts|
    ensures forall i | 0 <= i < |parts| :: r[i] == Normalize(parts[i])
  {
    if parts == [] then [] else [Normalize(parts[0])] + NormalizeAll(parts[1..])
  }

  /** What `content_hash` hashes. */
  function Content(parts: seq<Text>): Text {
    Join('\0', NormalizeAll(parts))
  }

  // -------------------------------------------------------------- line by line is char by char

  /** Drops every blank that is followed by the end of its line. */
  function Trim(s: Text): Text {
    if s == [] then []
    else
      var r := Trim(s[1..]);
      if Blank(s[0]) && (r == [] || r[0] == '\n') then r else [s[0]] + r
  }

  lemma {:induction false} TrimLineStep(c: char, line: Text)
    ensures TrimLine([c] + line) == if Blank(c) && TrimLine(line) == [] then [] else [c] + TrimLine(line)
    decreases |line|
  {
    var whole := [c] + line;
    if line == [] {
      assert whole[..|whole| - 1] == [];
    } else if Blank(line[|line| - 1]) {
      TrimLineStep(c, line[..|line| - 1]);
      assert whole[..|whole| - 1] == [c] + line[..|line| - 1];
    }
  }

  lemma {:induction false} LinesHaveNoNewline(s: Text)
    ensures forall i | 0 <= i < |Lines(s)| :: '\n' !in Lines(s)[i]
  {
    if s == [] {
    } else {
      LinesHaveNoNewline(s[1..]);
      var rest := Lines(s[1..]);
      assert '\n' !in rest[0];
      var all := if s[0] == '\n' then [[]] + rest else [[s[0]] + rest[0]] + rest[1..];
      forall i | 0 <= i < |all|
        ensures '\n' !in all[i]
      {
        if i > 0 {
          assert all[i] == if s[0] == '\n' then rest[i - 1] else rest[1..][i - 1];
        }
      }
      assert Lines(s) == all;
    }
  }

  /** Trim's result starts with a newline, or is empty, exactly when the first line is all blanks. */
  lemma {:induction false} TrimIsByLine(s: Text)
    ensures Trim(s) == Join('\n', TrimLines(Lines(s)))
    ensures (Trim(s) == [] || Trim(s)[0] == '\n') <==> TrimLine(Lines(s)[0]) == []
  {
    LinesHaveNoNewline(s);
    if s == [] {
    } else {
      TrimIsByLine(s[1..]);
      LinesHaveNoNewline(s[1..]);
      var rest := Lines(s[1..]);
      var trimmed := TrimLines(rest);
      if s[0] == '\n' {
        assert TrimLines([[]] + rest) == [TrimLine([])] + trimmed by { assert ([[]] + rest)[1..] == rest; }
        JoinHead('\n', [], trimmed);
        assert [] + ['\n'] + Join('\n', trimmed) == ['\n'] + Join('\n', trimmed);
      } else {
        TrimLineStep(s[0], rest[0]);
        var first := TrimLine([s[0]] + rest[0]);
        assert TrimLines([[s[0]] + rest[0]] + rest[1..]) == [first] + TrimLines(rest[1..]) by {
          assert ([[s[0]] + rest[0]] + rest[1..])[1..] == rest[1..];
        }
        assert trimmed == [TrimLine(rest[0])] + TrimLines(rest[1..]);
        JoinPrepend('\n', s[0], TrimLine(rest[0]), TrimLines(rest[1..]));
      }
    }
  }

  lemma JoinHead(c: char, p: Text, ps: seq<Text>)
    requires ps != []
    ensures Join(c, [p] + ps) == p + [c] + Join(c, ps)
  {
    assert ([p] + ps)[1..] == ps;
  }

  lemma JoinPrepend(c: char, x: char, p: Text, ps: seq<Text>)
    ensures Join(c, [[x] + p] + ps) == [x] + Join(c, [p] + ps)
  {
    assert ([[x] + p] + ps)[1..] == ps && ([p] + ps)[1..] == ps;
    if ps != [] {
      assert ([x] + p) + [c] + Join(c, ps) == [x] + (p + [c] + Join(c, ps));
    }
  }

  /** `\r\n` and `\r` to `\n` in one go. */
  function Eol(s: Text): Text {
    ReplaceCr(ReplaceCrLf(s))
  }

  lemma NormalizeIsTrim(s: Text)
    ensures Normalize(s) == TrimEnd(Trim(Eol(s))) + ['\n']
  {
    TrimIsByLine(Eol(s));
  }

  // ------------------------------------------------------------------------ edits

  /** One difference between two texts that must not make a conflict. */
  datatype Edit =
    | CrLfToLf(before: Text, after: Text)
    | CrToLf(before: Text, after: Text)
    | DropBlank(before: Text, blank: char, after: Text)
    | DropFinalNewline(before: Text)

  /** The two halves of the text do not meet in the middle of a `\r\n`. */
  predicate Apart(u: Text, v: Text) {
    u == [] || v == [] || u[|u| - 1] != '\r' || v[0] != '\n'
  }

  predicate Allowed(e: Edit) {
    match e
    case CrLfToLf(u, _) => Apart(u, ['\n'])
    case CrToLf(u, v) => Apart(u, ['\n']) && Apart(['\r'], v)
    case DropBlank(u, b, v) => (b == ' ' || b == '\t') && Apart(u, v) && (v == [] || v[0] == '\n' || v[0] == '\r')
    case DropFinalNewline(_) => true
  }

  function From(e: Edit): Text {
    match e
    case CrLfToLf(u, v) => u + (['\r', '\n'] + v)
    case CrToLf(u, v) => u + (['\r'] + v)
    case DropBlank(u, b, v) => u + ([b] + v)
    case DropFinalNewline(u) => u + ['\n']
  }

  function To(e: Edit): Text {
    match e
    case CrLfToLf(u, v) => u + (['\n'] + v)
    case CrToLf(u, v) => u + (['\n'] + v)
    case DropBlank(u, _, v) => u + v
    case DropFinalNewline(u) => u
  }

  lemma {:induction false} EolSplits(u: Text, v: Text)
    requires Apart(u, v)
    ensures Eol(u + v) == Eol(u) + Eol(v)
    decreases |u|
  {
    hide Eol;
    if u == [] {
      EolNothing();
      assert u + v == v && [] + Eol(v) == Eol(v);
    } else if |u| >= 2 && u[0] == '\r' && u[1] == '\n' {
      EolSplits(u[2..], v);
      assert (u + v)[2..] == u[2..] + v;
      EolPair(u + v);
      EolPair(u);
      AppendAssoc(['\n'], Eol(u[2..]), Eol(v));
    } else {
      EolSplits(u[1..], v);
      assert (u + v)[1..] == u[1..] + v;
      EolSingle(u + v);
      EolSingle(u);
      AppendAssoc([if u[0] == '\r' then '\n' else u[0]], Eol(u[1..]), Eol(v));
    }
  }

  lemma EolNothing()
    ensures Eol([]) == []
  {
  }

  lemma EolPair(s: Text)
    requires |s| >= 2 && s[0] == '\r' && s[1] == '\n'
    ensures Eol(s) == ['\n'] + Eol(s[2..])
  {
    assert ReplaceCrLf(s)[1..] == ReplaceCrLf(s[2..]);
  }

  lemma EolSingle(s: Text)
    requires s != [] && !(|s| >= 2 && s[0] == '\r' && s[1] == '\n')
    ensures Eol(s) == [if s[0] == '\r' then '\n' else s[0]] + Eol(s[1..])
  {
    assert ReplaceCrLf(s)[1..] == ReplaceCrLf(s[1..]);
  }

  lemma {:induction false} TrimAfter(x: Text, y: Text, z: Text)
    requires Trim(y) == Trim(z)
    ensures Trim(x + y) == Trim(x + z)
  {
    if x == [] {
      assert x + y == y && x + z == z;
    } else {
      TrimAfter(x[1..], y, z);
      assert (x + y)[1..] == x[1..] + y && (x + z)[1..] == x[1..] + z;
    }
  }

  lemma {:induction false} TrimNewline(x: Text)
    ensures Trim(x + ['\n']) == Trim(x) + ['\n']
  {
    if x == [] {
      assert x + ['\n'] == ['\n'] && ['\n'][1..] == [];
    } else {
      TrimNewline(x[1..]);
      assert (x + ['\n'])[1..] == x[1..] + ['\n'];
    }
  }

  lemma TrimEndNewline(x: Text)
    ensures TrimEnd(x + ['\n']) == TrimEnd(x)
  {
    assert (x + ['\n'])[..|x|] == x;
  }

  /** No allowed edit changes the normal form. */
  lemma EditKeepsNormalForm(e: Edit)
    requires Allowed(e)
    ensures Normalize(From(e)) == Normalize(To(e))
  {
    NormalizeIsTrim(From(e));
    NormalizeIsTrim(To(e));
    match e
    case CrLfToLf(u, v) =>
      EolSplits(u, ['\r', '\n'] + v);
      EolPair(['\r', '\n'] + v);
      assert (['\r', '\n'] + v)[2..] == v;
      EolSplits(u, ['\n'] + v);
      EolSingle(['\n'] + v);
      assert (['\n'] + v)[1..] == v;
    case CrToLf(u, v) =>
      EolSplits(u, ['\r'] + v);
      EolSingle(['\r'] + v);
      assert (['\r'] + v)[1..] == v;
      EolSplits(u, ['\n'] + v);
      EolSingle(['\n'] + v);
      assert (['\n'] + v)[1..] == v;
    case DropBlank(u, b, v) => DropBlankKeeps(u, b, v);
    case DropFinalNewline(u) => DropFinalKeeps(u);
  }

  lemma DropBlankKeeps(u: Text, b: char, v: Text)
    requires Allowed(DropBlank(u, b, v))
    ensures Trim(Eol(u + ([b] + v))) == Trim(Eol(u + v))
  {
    EolSplits(u, [b] + v);
    EolSplits(u, v);
    EolSingle([b] + v);
    assert ([b] + v)[1..] == v;
    if v != [] {
      if |v| >= 2 && v[0] == '\r' && v[1] == '\n' {
        EolPair(v);
      } else {
        EolSingle(v);
      }
    }
    assert ([b] + Eol(v))[1..] == Eol(v);
    TrimAfter(Eol(u), [b] + Eol(v), Eol(v));
  }

  lemma DropFinalKeeps(u: Text)
    ensures TrimEnd(Trim(Eol(u + ['\n']))) == TrimEnd(Trim(Eol(u)))
  {
    if Apart(u, ['\n']) {
      EolSplits(u, ['\n']);
      EolSingle(['\n']);
      EolNothing();
      assert ['\n'][1..] == [] && Eol(['\n']) == ['\n'];
      TrimNewline(Eol(u));
      TrimEndNewline(Trim(Eol(u)));
    } else {
      var w := u[..|u| - 1];
      assert u == w + ['\r'] && u + ['\n'] == w + ['\r', '\n'];
      EolSplits(w, ['\r']);
      EolSplits(w, ['\r', '\n']);
      EolSingle(['\r']);
      EolPair(['\r', '\n']);
      assert ['\r'][1..] == [] && ['\r', '\n'][2..] == [];
      EolNothing();
      assert Eol(u) == Eol(w) + ['\n'] == Eol(u + ['\n']);
    }
  }

  // -------------------------------------------------- every text reaches its normal form

  /** Each text of the chain differs from the next by one allowed edit, in either direction. */
  ghost predicate Chain(ts: seq<Text>) {
    && ts != []
    && forall i | 0 <= i < |ts| - 1 :: Linked(ts[i], ts[i + 1])
  }

  ghost predicate Linked(a: Text, b: Text) {
    exists e: Edit :: Allowed(e) && ((From(e) == a && To(e) == b) || (From(e) == b && To(e) == a))
  }

  ghost predicate Connects(ts: seq<Text>, a: Text, b: Text) {
    Chain(ts) && ts[0] == a && ts[|ts| - 1] == b
  }

  lemma EditLinks(e: Edit)
    requires Allowed(e)
    ensures Connects([From(e), To(e)], From(e), To(e))
  {
    assert Linked(From(e), To(e));
  }

  lemma Compose(ts: seq<Text>, us: seq<Text>, a: Text, b: Text, c: Text) returns (vs: seq<Text>)
    requires Connects(ts, a, b) && Connects(us, b, c)
    ensures Connects(vs, a, c)
  {
    vs := ts + us[1..];
    forall i | 0 <= i < |vs| - 1
      ensures Linked(vs[i], vs[i + 1])
    {
      if i >= |ts| - 1 {
        assert vs[i] == us[i - |ts| + 1] && vs[i + 1] == us[i - |ts| + 2];
      }
    }
  }

  lemma EditThen(e: Edit, us: seq<Text>, c: Text) returns (ts: seq<Text>)
    requires Allowed(e) && Connects(us, To(e), c)
    ensures Connects(ts, From(e), c)
  {
    EditLinks(e);
    ts := Compose([From(e), To(e)], us, From(e), To(e), c);
  }

  lemma Reverse(ts: seq<Text>, a: Text, b: Text) returns (vs: seq<Text>)
    requires Connects(ts, a, b)
    ensures Connects(vs, b, a)
  {
    vs := seq(|ts|, i requires 0 <= i < |ts| => ts[|ts| - 1 - i]);
    forall i | 0 <= i < |vs| - 1
      ensures Linked(vs[i], vs[i + 1])
    {
      assert Linked(ts[|ts| - 2 - i], ts[|ts| - 1 - i]);
    }
  }

  /** First the line endings, from left to right; u is done. */
  lemma {:induction false} ReachEol(u: Text, v: Text) returns (ts: seq<Text>)
    requires '\r' !in u
    ensures Connects(ts, u + v, u + Eol(v))
    decreases |v|
  {
    hide Connects, Eol;
    if v == [] {
      ts := ReachNothing(u, v);
    } else if |v| >= 2 && v[0] == '\r' && v[1] == '\n' {
      EolPair(v);
      var us := ReachEol(u + ['\n'], v[2..]);
      AppendAssoc(u, ['\n'], Eol(v[2..]));
      AppendAssoc(u, ['\n'], v[2..]);
      assert v == ['\r', '\n'] + v[2..];
      ts := EditThen(CrLfToLf(u, v[2..]), us, u + Eol(v));
    } else if v[0] == '\r' {
      EolSingle(v);
      var us := ReachEol(u + ['\n'], v[1..]);
      AppendAssoc(u, ['\n'], Eol(v[1..]));
      AppendAssoc(u, ['\n'], v[1..]);
      assert v == ['\r'] + v[1..];
      ts := EditThen(CrToLf(u, v[1..]), us, u + Eol(v));
    } else {
      EolSingle(v);
      ts := ReachEol(u + [v[0]], v[1..]);
      AppendAssoc(u, [v[0]], Eol(v[1..]));
      AppendAssoc(u, [v[0]], v[1..]);
      assert v == [v[0]] + v[1..];
    }
  }

  lemma ReachNothing(u: Text, v: Text) returns (ts: seq<Text>)
    requires v == []
    ensures Connects(ts, u + v, u + Eol(v))
  {
    ts := [u + v];
  }

  lemma AppendAssoc(a: Text, b: Text, c: Text)
    ensures (a + b) + c == a + (b + c)
  {
  }

  /** Then the blanks, from right to left. */
  lemma {:induction false} ReachTrim(u: Text, v: Text) returns (ts: seq<Text>)
    requires '\r' !in u && '\r' !in v
    ensures Connects(ts, u + v, u + Trim(v))
    decreases |v|
  {
    if v == [] {
      ts := [u + v];
    } else {
      assert u + v == (u + [v[0]]) + v[1..];
      ts := ReachTrim(u + [v[0]], v[1..]);
      var r := Trim(v[1..]);
      assert (u + [v[0]]) + r == u + ([v[0]] + r);
      if Blank(v[0]) && (r == [] || r[0] == '\n') {
        var e := DropBlank(u, v[0], r);
        EditLinks(e);
        ts := Compose(ts, [From(e), To(e)], u + v, From(e), u + r);
      }
    }
  }

  /** Then the newlines at the end. */
  lemma {:induction false} ReachTrimEnd(s: Text) returns (ts: seq<Text>)
    ensures Connects(ts, s, TrimEnd(s))
    decreases |s|
  {
    if s != [] && s[|s| - 1] == '\n' {
      var w := s[..|s| - 1];
      var e := DropFinalNewline(w);
      EditLinks(e);
      assert From(e) == s;
      var us := ReachTrimEnd(w);
      ts := Compose([From(e), To(e)], us, s, w, TrimEnd(w));
    } else {
      ts := [s];
    }
  }

  lemma {:induction false} EolHasNoCr(s: Text)
    ensures '\r' !in Eol(s)
  {
    NoCr(ReplaceCrLf(s));
  }

  lemma {:induction false} NoCr(s: Text)
    ensures '\r' !in ReplaceCr(s)
  {
    if s == [] {
    } else {
      NoCr(s[1..]);
    }
  }

  lemma ReachNormalForm(s: Text) returns (ts: seq<Text>)
    ensures Connects(ts, s, Normalize(s))
  {
    NormalizeIsTrim(s);
    EolHasNoCr(s);
    var a := Eol(s);
    var b := Trim(a);
    var c := TrimEnd(b);
    var t1 := ReachEol([], s);
    assert [] + s == s && [] + a == a;
    var t2 := ReachTrim([], a);
    assert [] + b == b;
    var t3 := ReachTrimEnd(b);
    EditLinks(DropFinalNewline(c));
    var t4 := Reverse([c + ['\n'], c], c + ['\n'], c);
    ts := Compose(t1, t2, s, a, b);
    ts := Compose(ts, t3, s, b, c);
    ts := Compose(ts, t4, s, c, Normalize(s));
  }

  lemma {:induction false} ChainKeepsNormalForm(ts: seq<Text>, i: nat)
    requires Chain(ts) && i < |ts|
    ensures Normalize(ts[i]) == Normalize(ts[0])
  {
    if i == 0 {
    } else {
      ChainKeepsNormalForm(ts, i - 1);
      assert Linked(ts[i - 1], ts[i]);
      var e: Edit :| Allowed(e) && ((From(e) == ts[i - 1] && To(e) == ts[i]) || (From(e) == ts[i] && To(e) == ts[i - 1]));
      EditKeepsNormalForm(e);
    }
  }

  /** The main theorem: equal normal forms mean a chain of harmless edits, and nothing else. */
  lemma SameNormalFormMeansHarmlessEdits(a: Text, b: Text)
    ensures Normalize(a) == Normalize(b) <==> exists ts :: Connects(ts, a, b)
  {
    if Normalize(a) == Normalize(b) {
      var ts := ReachNormalForm(a);
      var us := ReachNormalForm(b);
      us := Reverse(us, b, Normalize(b));
      var vs := Compose(ts, us, a, Normalize(a), b);
    }
    if ts :| Connects(ts, a, b) {
      ChainKeepsNormalForm(ts, |ts| - 1);
    }
  }

  lemma NormalizeIsIdempotent(s: Text)
    ensures Normalize(Normalize(s)) == Normalize(s)
  {
    var ts := ReachNormalForm(s);
    ChainKeepsNormalForm(ts, |ts| - 1);
  }

  // ------------------------------------------------------------------- line endings

  /** A text with every newline written as the given ending. */
  function WithEnding(s: Text, ending: Text): Text {
    if s == [] then [] else (if s[0] == '\n' then ending else [s[0]]) + WithEnding(s[1..], ending)
  }

  lemma {:induction false} EolUndoesEnding(s: Text, ending: Text)
    requires '\r' !in s && ending in [['\r', '\n'], ['\r'], ['\n']]
    ensures Eol(WithEnding(s, ending)) == s
  {
    if s == [] {
    } else {
      var rest := WithEnding(s[1..], ending);
      EolUndoesEnding(s[1..], ending);
      var head := if s[0] == '\n' then ending else [s[0]];
      if ending == ['\r', '\n'] && s[0] == '\n' {
        EolPair(head + rest);
        assert (head + rest)[2..] == rest;
      } else {
        assert rest != [] ==> rest[0] != '\n' || ending == ['\n'];
        EolSingle(head + rest);
        assert (head + rest)[1..] == rest;
      }
    }
  }

  /** Saving a text with CRLF or CR line endings instead of LF changes no hash. */
  lemma EndingsDoNotMatter(s: Text, ending: Text)
    requires '\r' !in s && ending in [['\r', '\n'], ['\r'], ['\n']]
    ensures Normalize(WithEnding(s, ending)) == Normalize(s)
  {
    EolUndoesEnding(s, ending);
    EolUndoesEnding(s, ['\n']);
    LfIsNoChange(s);
  }

  lemma {:induction false} LfIsNoChange(s: Text)
    ensures WithEnding(s, ['\n']) == s
  {
    if s == [] {
    } else {
      LfIsNoChange(s[1..]);
    }
  }

  /** One CRLF may not be shortened right after a lone CR: the CR would join the LF. */
  lemma CrBeforeCrLf()
    ensures !Allowed(CrLfToLf(['\r'], ['x']))
    ensures Normalize(['\r', '\r', '\n', 'x']) != Normalize(['\r', '\n', 'x'])
  {
    NormalizeIsTrim(['\r', '\r', '\n', 'x']);
    NormalizeIsTrim(['\r', '\n', 'x']);
    var s, t: Text := ['\r', '\r', '\n', 'x'], ['\r', '\n', 'x'];
    EolSingle(s);
    assert s[1..] == t;
    EolPair(t);
    assert t[2..] == ['x'];
    EolSingle(['x']);
    assert ['x'][1..] == [];
    assert Eol(t) == ['\n', 'x'] && Eol(s) == ['\n', '\n', 'x'];
    assert ['\n', '\n', 'x'][1..] == ['\n', 'x'] && ['\n', 'x'][1..] == ['x'];
    assert Trim(['x']) == ['x'];
    assert Trim(['\n', 'x']) == ['\n', 'x'];
    assert Trim(['\n', '\n', 'x']) == ['\n', '\n', 'x'];
  }

  // ------------------------------------------------------------------ several parts

  /** Where c first occurs in s, or the length of s. */
  function IndexOf(s: Text, c: char): (i: nat)
    ensures i <= |s|
  {
    if s == [] || s[0] == c then 0 else 1 + IndexOf(s[1..], c)
  }

  lemma {:induction false} IndexAfter(p: Text, rest: Text, c: char)
    requires c !in p && (rest == [] || rest[0] == c)
    ensures IndexOf(p + rest, c) == |p|
  {
    if p == [] {
      assert p + rest == rest;
    } else {
      IndexAfter(p[1..], rest, c);
      assert (p + rest)[1..] == p[1..] + rest;
    }
  }

  /** The first part of a joined text ends at the first separator. */
  lemma FirstPart(c: char, ps: seq<Text>)
    requires ps != [] && c !in ps[0]
    ensures var j := Join(c, ps);
            var k := IndexOf(j, c);
            && k == |ps[0]| && ps[0] == j[..k]
            && (|ps| > 1 <==> k < |j|)
            && (|ps| > 1 ==> Join(c, ps[1..]) == j[k + 1..])
  {
    var j := Join(c, ps);
    if |ps| == 1 {
      IndexAfter(ps[0], [], c);
      assert ps[0] + [] == ps[0];
    } else {
      var rest := [c] + Join(c, ps[1..]);
      assert j == ps[0] + rest;
      IndexAfter(ps[0], rest, c);
      assert j[|ps[0]| + 1..] == rest[1..] == Join(c, ps[1..]);
    }
  }

  lemma {:induction false} JoinIsInjective(c: char, ps: seq<Text>, qs: seq<Text>)
    requires ps != [] && qs != []
    requires forall i | 0 <= i < |ps| :: c !in ps[i]
    requires forall i | 0 <= i < |qs| :: c !in qs[i]
    requires Join(c, ps) == Join(c, qs)
    ensures ps == qs
  {
    FirstPart(c, ps);
    FirstPart(c, qs);
    if |ps| > 1 {
      JoinIsInjective(c, ps[1..], qs[1..]);
      assert ps == [ps[0]] + ps[1..] && qs == [qs[0]] + qs[1..];
    } else {
      assert ps == [ps[0]] && qs == [qs[0]];
    }
  }

  /** Hashed contents are equal exactly when there are as many parts and they are pairwise the same text. */
  lemma ContentIsFaithful(ps: seq<Text>, qs: seq<Text>)
    requires forall i | 0 <= i < |ps| :: '\0' !in ps[i]
    requires forall i | 0 <= i < |qs| :: '\0' !in qs[i]
    ensures Content(ps) == Content(qs) <==>
            |ps| == |qs| && forall i | 0 <= i < |ps| :: Normalize(ps[i]) == Normalize(qs[i])
  {
    var ns, ms := NormalizeAll(ps), NormalizeAll(qs);
    forall i | 0 <= i < |ns|
      ensures '\0' !in ns[i]
    {
      NormalizeAddsNoNul(ps[i]);
    }
    forall i | 0 <= i < |ms|
      ensures '\0' !in ms[i]
    {
      NormalizeAddsNoNul(qs[i]);
    }
    if Content(ps) == Content(qs) {
      JoinIsEmpty(ns);
      JoinIsEmpty(ms);
      if ns != [] && ms != [] {
        JoinIsInjective('\0', ns, ms);
      }
    }
    if |ps| == |qs| && forall i | 0 <= i < |ps| :: Normalize(ps[i]) == Normalize(qs[i]) {
      assert ns == ms;
    }
  }

  lemma JoinIsEmpty(ns: seq<Text>)
    requires forall i | 0 <= i < |ns| :: ns[i] != []
    ensures Join('\0', ns) == [] <==> ns == []
  {
  }

  lemma NormalizeAddsNoNul(s: Text)
    requires '\0' !in s
    ensures '\0' !in Normalize(s)
  {
    NormalizeIsTrim(s);
    NothingNew(s);
  }

  lemma {:induction false} NothingNew(s: Text)
    requires '\0' !in s
    ensures '\0' !in TrimEnd(Trim(Eol(s)))
  {
    CrLfAddsNothing(s);
    CrAddsNothing(ReplaceCrLf(s));
    TrimAddsNothing(Eol(s));
    TrimEndAddsNothing(Trim(Eol(s)));
  }

  lemma CrLfAddsNothing(s: Text)
    requires '\0' !in s
    ensures '\0' !in ReplaceCrLf(s)
  {
  }

  lemma CrAddsNothing(s: Text)
    requires '\0' !in s
    ensures '\0' !in ReplaceCr(s)
  {
  }

  lemma TrimAddsNothing(s: Text)
    requires '\0' !in s
    ensures '\0' !in Trim(s)
  {
  }

  lemma TrimEndAddsNothing(s: Text)
    requires '\0' !in s
    ensures '\0' !in TrimEnd(s)
  {
  }
}
