/** The description table of `src/io.rs`: variant resolution (`query`), the
    splitting of one description into its variants (`ids_split_var`) and the
    folding of record lines into the table (the `process_1` closure of
    `load`). The table is an explicit value, not a process-wide static. */
module IdsIo {
  import opened Wrappers
  import opened Strings

  /** Character -> variant tag -> raw description. */
  type Table = map<char, map<string, string>>

  /** The entry `HashMap::iter().next()` happens to yield; the model fixes
      only that it is an entry of the map. */
  type Picker = map<string, string> -> string

  ghost predicate PickerOk(pick: Picker)
  {
    forall m: map<string, string> :: |m| > 0 ==> pick(m) in m
  }

  // ---------------------------------------------------------------------
  // query
  // ---------------------------------------------------------------------

  /** The index of the first preferred tag that the character has. */
  function FirstPreferred(avail: map<string, string>, vars: seq<string>): (r: Option<nat>)
    ensures r.Some? ==>
      r.value < |vars| && vars[r.value] in avail
      && forall j | 0 <= j < r.value :: vars[j] !in avail
    ensures r.None? ==> forall j | 0 <= j < |vars| :: vars[j] !in avail
  {
    if |vars| == 0 then None
    else if vars[0] in avail then Some(0)
    else
      match FirstPreferred(avail, vars[1..])
      case Some(i) => Some(i + 1)
      case None => None
  }

  lemma SingletonKeys(m: map<string, string>, k: string)
    requires |m| == 1 && k in m
    ensures m == map[k := m[k]]
  {
    assert |m.Keys - {k}| == 0;
    assert m.Keys - {k} == {};
    assert m.Keys == {k};
  }

  /** `query`: the (tag, description) pair used for `ch` under the
      preference list `vars`. */
  function Query(table: Table, pick: Picker, ch: char, vars: seq<string>): (r: Option<(string, string)>)
    requires PickerOk(pick)
    ensures r.None? <==> ch !in table || |table[ch]| == 0
    ensures r.Some? ==> r.value.0 in table[ch] && table[ch][r.value.0] == r.value.1
    ensures ch in table && |table[ch]| == 1 ==> r.Some? && table[ch] == map[r.value.0 := r.value.1]
    ensures ch in table && |table[ch]| >= 2 ==>
      forall i | 0 <= i < |vars| && vars[i] in table[ch] && (forall j | 0 <= j < i :: vars[j] !in table[ch]) ::
        r.value.0 == vars[i]
    ensures ch in table && |table[ch]| >= 2 && "" in table[ch]
            && (forall i | 0 <= i < |vars| :: vars[i] !in table[ch]) ==>
      r == Some(("", table[ch][""]))
  {
    if ch !in table then None
    else
      var avail := table[ch];
      if |avail| <= 1 then
        if |avail| == 0 then None
        else
          var k := pick(avail);
          SingletonKeys(avail, k);
          Some((k, avail[k]))
      else
        match FirstPreferred(avail, vars)
        case Some(i) =>
          Some((vars[i], avail[vars[i]]))
        case None =>
          if "" in avail then Some(("", avail[""]))
          else Some((pick(avail), avail[pick(avail)]))
  }

  /** The "soft fallback" the Rust code reports on standard error: several
      variants and none of them preferred. */
  predicate IsSoftFallback(table: Table, ch: char, vars: seq<string>)
  {
    ch in table && |table[ch]| >= 2 && forall i | 0 <= i < |vars| :: vars[i] !in table[ch]
  }

  /** A soft fallback still finds an entry, and its tag is none of the
      preferred ones. */
  lemma SoftFallbackTagNotPreferred(table: Table, pick: Picker, ch: char, vars: seq<string>)
    requires PickerOk(pick) && IsSoftFallback(table, ch, vars)
    ensures Query(table, pick, ch, vars).Some?
    ensures Query(table, pick, ch, vars).value.0 !in vars
  {
    var r := Query(table, pick, ch, vars);
    forall i | 0 <= i < |vars|
      ensures vars[i] != r.value.0
    {
      assert vars[i] !in table[ch];
    }
  }

  // ---------------------------------------------------------------------
  // ids_split_var
  // ---------------------------------------------------------------------

  /** Each tag paired with the same description. */
  function Tagged(tags: seq<string>, ids: string): (r: seq<(string, string)>)
    ensures |r| == |tags| && forall i | 0 <= i < |r| :: r[i] == (tags[i], ids)
  {
    seq(|tags|, i requires 0 <= i < |tags| => (tags[i], ids))
  }

  function Tags(ps: seq<(string, string)>): (r: seq<string>)
    ensures |r| == |ps| && forall i | 0 <= i < |r| :: r[i] == ps[i].0
  {
    seq(|ps|, i requires 0 <= i < |ps| => ps[i].0)
  }

  /** `ids_split_var`: `XYZ(a,b)` stands for the description `XYZ` under the
      tags `a` and `b`; anything else is one description under the tag `""`.
      A `(` at index 0 has no character before it and so splits (see
      `SplitVarChecked`). */
  function SplitVar(s: string): (r: seq<(string, string)>)
    ensures |r| >= 1
  {
    if |s| > 0 && s[|s| - 1] == ')' then
      match RFind(s, '(')
      case Some(p) =>
        if p > 0 && s[p - 1] == '#' then [("", s)]
        else Tagged(Split(s[p + 1..|s| - 1], ','), s[..p])
      case None => [("", s)]
    else [("", s)]
  }

  /** `p` is the index of the last `(` of `s`. */
  predicate LastOpen(s: string, p: nat)
  {
    p < |s| && s[p] == '(' && '(' !in s[p + 1..]
  }

  lemma LastOpenIsRFind(s: string, p: nat)
    requires LastOpen(s, p)
    ensures RFind(s, '(') == Some(p)
  {
    var q := RFind(s, '(').value;
    assert s[q] !in s[p + 1..];
    assert s[p] !in s[q + 1..];
  }

  /** A description that does not end in `)`, or has no `(`, is one
      description under the tag `""`. */
  lemma SplitVarWhole(s: string)
    requires |s| == 0 || s[|s| - 1] != ')' || '(' !in s
    ensures SplitVar(s) == [("", s)]
  {
  }

  /** So is one whose last `(` is escaped by a `#` right before it. */
  lemma SplitVarEscaped(s: string, p: nat)
    requires |s| > 0 && s[|s| - 1] == ')' && LastOpen(s, p) && p > 0 && s[p - 1] == '#'
    ensures SplitVar(s) == [("", s)]
  {
    LastOpenIsRFind(s, p);
  }

  /** Otherwise the text between the last `(` and the closing `)` is a
      comma-separated tag list: one pair per tag, all with the description
      before the `(`, and the tags joined with `,` give that text back. */
  lemma SplitVarTags(s: string, p: nat)
    requires |s| > 0 && s[|s| - 1] == ')' && LastOpen(s, p) && !(p > 0 && s[p - 1] == '#')
    ensures p + 1 <= |s| - 1
    ensures |SplitVar(s)| == Count(',', s[p + 1..|s| - 1]) + 1
    ensures forall i | 0 <= i < |SplitVar(s)| :: SplitVar(s)[i].1 == s[..p] && ',' !in SplitVar(s)[i].0
    ensures Join(Tags(SplitVar(s)), ',') == s[p + 1..|s| - 1]
  {
    LastOpenIsRFind(s, p);
    var body := s[p + 1..|s| - 1];
    assert Tags(SplitVar(s)) == Split(body, ',');
    JoinSplit(body, ',');
  }

  /** `ids_split_var` exactly as written: for a `(` at index 0, `p - 1`
      underflows `usize`, which a debug build reports as a panic (`None`). */
  function SplitVarChecked(s: string): Option<seq<(string, string)>>
  {
    if |s| > 0 && s[|s| - 1] == ')' then
      match RFind(s, '(')
      case Some(p) =>
        if p == 0 then None
        else if s[p - 1] == '#' then Some([("", s)])
        else Some(Tagged(Split(s[p + 1..|s| - 1], ','), s[..p]))
      case None => Some([("", s)])
    else Some([("", s)])
  }

  /** The code as written panics exactly on descriptions that end in `)`
      and whose last `(` is their first character; everywhere else it
      agrees with `SplitVar`. */
  lemma SplitVarCheckedPanics(s: string)
    ensures SplitVarChecked(s).None? <==> |s| > 0 && s[|s| - 1] == ')' && LastOpen(s, 0)
    ensures SplitVarChecked(s).Some? ==> SplitVarChecked(s).value == SplitVar(s)
  {
    if |s| > 0 && s[|s| - 1] == ')' && LastOpen(s, 0) {
      LastOpenIsRFind(s, 0);
    }
  }

  /** The smallest such description, `(a)`: the checked build panics, the
      intended reading is the tag `a` with an empty description. */
  lemma SplitVarLeadingParen()
    ensures SplitVarChecked("(a)") == None
    ensures SplitVar("(a)") == [("a", "")]
  {
    LastOpenIsRFind("(a)", 0);
    assert "(a)"[1..2] == "a";
    SplitNoSep("a", ',');
  }

  // ---------------------------------------------------------------------
  // process_1
  // ---------------------------------------------------------------------

  /** `hm.insert(var, ids)` for every pair in order. */
  function ApplyPairs(hm: map<string, string>, ps: seq<(string, string)>): map<string, string>
  {
    if |ps| == 0 then hm
    else
      var last := ps[|ps| - 1];
      ApplyPairs(hm, ps[..|ps| - 1])[last.0 := last.1]
  }

  /** The index of the last pair with tag `t`. */
  function LastIndexFor(ps: seq<(string, string)>, t: string): (r: Option<nat>)
    ensures r.Some? ==>
      r.value < |ps| && ps[r.value].0 == t && forall j | r.value < j < |ps| :: ps[j].0 != t
    ensures r.None? ==> forall j | 0 <= j < |ps| :: ps[j].0 != t
  {
    if |ps| == 0 then None
    else if ps[|ps| - 1].0 == t then Some(|ps| - 1)
    else LastIndexFor(ps[..|ps| - 1], t)
  }

  /** The last write wins: a tag written by some pair holds the description
      of the last such pair; any other tag keeps its old entry, or stays
      absent. */
  lemma {:induction false} ApplyPairsLastWins(hm: map<string, string>, ps: seq<(string, string)>, t: string)
    ensures LastIndexFor(ps, t).Some? ==>
      t in ApplyPairs(hm, ps) && ApplyPairs(hm, ps)[t] == ps[LastIndexFor(ps, t).value].1
    ensures LastIndexFor(ps, t).None? ==>
      (t in ApplyPairs(hm, ps) <==> t in hm) && (t in hm ==> ApplyPairs(hm, ps)[t] == hm[t])
  {
    if |ps| > 0 {
      ApplyPairsLastWins(hm, ps[..|ps| - 1], t);
    }
  }

  lemma {:induction false} ApplyPairsAppend(hm: map<string, string>, a: seq<(string, string)>, b: seq<(string, string)>)
    ensures ApplyPairs(hm, a + b) == ApplyPairs(ApplyPairs(hm, a), b)
  {
    if |b| == 0 {
      assert a + b == a;
    } else {
      assert (a + b)[..|a + b| - 1] == a + b[..|b| - 1];
      ApplyPairsAppend(hm, a, b[..|b| - 1]);
    }
  }

  /** The pairs of every `;`-separated piece, one piece after another. */
  function FlatSplitVars(pieces: seq<string>): seq<(string, string)>
  {
    if |pieces| == 0 then []
    else FlatSplitVars(pieces[..|pieces| - 1]) + SplitVar(pieces[|pieces| - 1])
  }

  /** Everything the second field of a record line writes. */
  function LinePairs(field: string): seq<(string, string)>
  {
    FlatSplitVars(Split(field, ';'))
  }

  predicate IsComment(ln: string)
  {
    |ln| > 0 && ln[0] == '*'
  }

  /** The body of `process_1` for one line. */
  function ProcessLine(m: Table, ln: string): Table
  {
    if IsComment(ln) then m
    else
      var v := Split(ln, '\t');
      if |v| < 2 || |v[0]| != 1 then m
      else
        var ch := v[0][0];
        var hm := if ch in m then m[ch] else map[];
        m[ch := ApplyPairs(hm, LinePairs(v[1]))]
  }

  /** The lines of one file, in order. */
  function ProcessLines(m: Table, lines: seq<string>): Table
  {
    if |lines| == 0 then m
    else ProcessLine(ProcessLines(m, lines[..|lines| - 1]), lines[|lines| - 1])
  }

  /** A record line: not a comment, a one-character first field, a tab. */
  predicate ValidRecord(ln: string)
  {
    |ln| >= 2 && ln[0] != '*' && ln[0] != '\t' && ln[1] == '\t'
  }

  lemma SplitFirstNonEmpty(s: string, sep: char)
    requires |s| > 0 && s[0] != sep
    ensures |Split(s, sep)[0]| >= 1 && Split(s, sep)[0][0] == s[0]
  {
  }

  /** A comment, a line without a tab, or a line whose first field is not
      exactly one character leaves the table as it is. */
  lemma ProcessLineSkips(m: Table, ln: string)
    requires !ValidRecord(ln)
    ensures ProcessLine(m, ln) == m
  {
    if !IsComment(ln) && |ln| > 0 {
      var v := Split(ln, '\t');
      if ln[0] == '\t' {
        assert v[0] == "";
      } else if |ln| == 1 {
        SplitNoSep(ln, '\t');
      } else {
        SplitFirstNonEmpty(ln[1..], '\t');
        assert v[0] == [ln[0]] + Split(ln[1..], '\t')[0];
      }
    }
  }

  /** A record line replaces the entry of its character, and only that one,
      by the old entry (or an empty one) updated with the pairs of its second
      field; that field ends at the next tab. */
  lemma ProcessLineRecord(m: Table, ln: string)
    requires ValidRecord(ln)
    ensures ProcessLine(m, ln)
      == m[ln[0] := ApplyPairs(if ln[0] in m then m[ln[0]] else map[],
                               LinePairs(Split(ln[2..], '\t')[0]))]
  {
    assert ln == [ln[0]] + ['\t'] + ln[2..];
    SplitAtSep([ln[0]], ln[2..], '\t');
  }

  /** `process_1` looks at the first two tab-separated fields only. */
  lemma ProcessLineFields(m: Table, a: string, b: string)
    requires |a| > 0 && |b| > 0 && a[0] == b[0]
    requires |Split(a, '\t')| >= 2 && |Split(b, '\t')| >= 2
    requires Split(a, '\t')[0] == Split(b, '\t')[0] && Split(a, '\t')[1] == Split(b, '\t')[1]
    ensures ProcessLine(m, a) == ProcessLine(m, b)
  {
  }

  /** Fields after the second change nothing. */
  lemma ProcessLineExtraFields(m: Table, c: char, f: string, rest: string)
    requires c != '*' && c != '\t' && '\t' !in f
    ensures ProcessLine(m, [c] + "\t" + f + "\t" + rest) == ProcessLine(m, [c] + "\t" + f)
  {
    var long := [c] + "\t" + f + "\t" + rest;
    var short := [c] + "\t" + f;
    assert long == [c] + ['\t'] + (f + ['\t'] + rest);
    assert short == [c] + ['\t'] + f;
    SplitAtSep([c], f + ['\t'] + rest, '\t');
    SplitAtSep([c], f, '\t');
    SplitAtSep(f, rest, '\t');
    SplitNoSep(f, '\t');
    ProcessLineFields(m, long, short);
  }

  /** What a record line does to the table, tag by tag: the line's character
      gets, for each tag, the description of the last pair naming it (or
      keeps its old entry); every other character is untouched. */
  lemma ProcessLineEffect(m: Table, ln: string, c: char, t: string)
    requires ValidRecord(ln)
    ensures ln[0] in ProcessLine(m, ln)
    ensures c != ln[0] ==>
      (c in ProcessLine(m, ln) <==> c in m) && (c in m ==> ProcessLine(m, ln)[c] == m[c])
    ensures var ps := LinePairs(Split(ln[2..], '\t')[0]);
      var hm := ProcessLine(m, ln)[ln[0]];
      match LastIndexFor(ps, t)
      case Some(i) => t in hm && hm[t] == ps[i].1
      case None =>
        (t in hm <==> ln[0] in m && t in m[ln[0]])
        && (t in hm ==> hm[t] == m[ln[0]][t])
  {
    ProcessLineRecord(m, ln);
    var ps := LinePairs(Split(ln[2..], '\t')[0]);
    ApplyPairsLastWins(if ln[0] in m then m[ln[0]] else map[], ps, t);
  }

  /** Loading the lines of several files, one file after another. */
  function Concat(files: seq<seq<string>>): seq<string>
  {
    if |files| == 0 then [] else Concat(files[..|files| - 1]) + files[|files| - 1]
  }

  lemma {:induction false} ProcessLinesAppend(m: Table, a: seq<string>, b: seq<string>)
    ensures ProcessLines(m, a + b) == ProcessLines(ProcessLines(m, a), b)
  {
    if |b| == 0 {
      assert a + b == a;
    } else {
      assert (a + b)[..|a + b| - 1] == a + b[..|b| - 1];
      ProcessLinesAppend(m, a, b[..|b| - 1]);
    }
  }

  /** The inner loop of `process_1`: `hm.insert(var, ids)` for each pair of
      one piece. */
  method InsertPairs(hm: map<string, string>, pairs: seq<(string, string)>) returns (r: map<string, string>)
    ensures r == ApplyPairs(hm, pairs)
  {
    r := hm;
    for j := 0 to |pairs|
      invariant r == ApplyPairs(hm, pairs[..j])
    {
      assert pairs[..j + 1][..j] == pairs[..j];
      var (tag, ids) := pairs[j];
      r := r[tag := ids];
    }
    assert pairs[..|pairs|] == pairs;
  }

  /** The loop over the `;`-separated pieces of a record's second field. */
  method InsertPieces(hm: map<string, string>, pieces: seq<string>) returns (r: map<string, string>)
    ensures r == ApplyPairs(hm, FlatSplitVars(pieces))
  {
    r := hm;
    for i := 0 to |pieces|
      invariant r == ApplyPairs(hm, FlatSplitVars(pieces[..i]))
    {
      assert pieces[..i + 1][..i] == pieces[..i];
      ApplyPairsAppend(hm, FlatSplitVars(pieces[..i]), SplitVar(pieces[i]));
      r := InsertPairs(r, SplitVar(pieces[i]));
    }
    assert pieces[..|pieces|] == pieces;
  }

  /** The table `load` fills, with the `process_1` closure as a method. */
  class Loader {
    var idsMap: Table

    constructor ()
      ensures idsMap == map[]
    {
      idsMap := map[];
    }

    /** One iteration of the line loop of `process_1`; each `return` is
        one of its `continue`s. The entry `hm` of the character is updated
        and stored back. */
    method ProcessRecord(ln: string)
      modifies this
      ensures idsMap == ProcessLine(old(idsMap), ln)
    {
      if IsComment(ln) {
        return;
      }
      var v := Split(ln, '\t');
      if |v| < 2 {
        return;
      }
      if |v[0]| == 0 {
        return;
      }
      var ch := v[0][0];
      if |v[0]| > 1 {
        return;
      }
      var hm := if ch in idsMap then idsMap[ch] else map[];
      hm := InsertPieces(hm, Split(v[1], ';'));
      idsMap := idsMap[ch := hm];
    }

    /** `process_1` over the lines of one file. */
    method Process1(lines: seq<string>)
      modifies this
      ensures idsMap == ProcessLines(old(idsMap), lines)
    {
      for n := 0 to |lines|
        invariant idsMap == ProcessLines(old(idsMap), lines[..n])
      {
        assert lines[..n + 1][..n] == lines[..n];
        ProcessRecord(lines[n]);
      }
      assert lines[..|lines|] == lines;
    }
  }

  /** `load`: every file's lines folded into one table, files in order. */
  method Load(files: seq<seq<string>>) returns (t: Table)
    ensures t == ProcessLines(map[], Concat(files))
  {
    var loader := new Loader();
    for f := 0 to |files|
      invariant loader.idsMap == ProcessLines(map[], Concat(files[..f]))
    {
      assert files[..f + 1][..f] == files[..f];
      loader.Process1(files[f]);
      ProcessLinesAppend(map[], Concat(files[..f]), files[f]);
    }
    assert files[..|files|] == files;
    t := loader.idsMap;
  }
}
