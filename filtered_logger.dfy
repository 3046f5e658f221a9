/** Log-line redaction: `filter_datum` and the `RedactingFormatter` built on it.

    One pass of `filter_datum` is a regular-expression substitution of the
    pattern `field=[^;]+` by the matched text followed by
    `separator + redaction`. The matched `field=value` is therefore KEPT and
    the redaction token is INSERTED after it; the value always ends at the
    next `;` (or at the end of the line), whatever the separator is. Field
    names are taken as literal text (no regular-expression metacharacters). */
module FilteredLogger {
  import opened Wrappers

  /** Length of the longest prefix of `s` that holds no `;` (the `[^;]*` run). */
  function RunLength(s: string): (n: nat)
    ensures n <= |s|
    ensures forall i :: 0 <= i < n ==> s[i] != ';'
    ensures n == |s| || s[n] == ';'
  {
    if s == [] || s[0] == ';' then 0 else 1 + RunLength(s[1..])
  }

  /** The regular expression `pat[^;]+` tried at the start of `s`: the length
      of the match, or None. `[^;]+` is greedy, so a match runs up to the
      next `;` or to the end of `s`, and it needs at least one character. */
  function MatchAt(pat: string, s: string): (r: Option<nat>)
    ensures r.Some? <==> (|pat| < |s| && s[..|pat|] == pat && s[|pat|] != ';')
    ensures r.Some? ==> |pat| < r.value <= |s|
    ensures r.Some? ==> forall i :: |pat| <= i < r.value ==> s[i] != ';'
    ensures r.Some? ==> r.value == |s| || s[r.value] == ';'
  {
    if |pat| < |s| && s[..|pat|] == pat && s[|pat|] != ';'
    then Some(|pat| + RunLength(s[|pat|..]))
    else None
  }

  /** True when the pattern matches nowhere in `m`. */
  ghost predicate NoMatch(pat: string, m: string)
  {
    forall i :: 0 <= i <= |m| ==> MatchAt(pat, m[i..]).None?
  }

  /** The pattern of one field: the field name followed by `=`. */
  function Pattern(field: string): string
  {
    field + "="
  }

  /** One substitution pass: scanning left to right, every non-overlapping
      match of `pat[^;]+` is kept and followed by `ins`. */
  function Pass(pat: string, ins: string, m: string): string
    decreases |m|
  {
    if m == [] then []
    else match MatchAt(pat, m)
      case Some(n) => m[..n] + ins + Pass(pat, ins, m[n..])
      case None => [m[0]] + Pass(pat, ins, m[1..])
  }

  /** The whole of `filter_datum` as a specification: the passes of the fields
      applied in list order, each to the previous pass's output. */
  function FilterAll(fields: seq<string>, redaction: string, message: string, separator: string): string
    decreases |fields|
  {
    if fields == [] then message
    else
      var last := |fields| - 1;
      Pass(Pattern(fields[last]), separator + redaction,
           FilterAll(fields[..last], redaction, message, separator))
  }

  /** `filter_datum`: rebinds `message` once per field, in list order. */
  method FilterDatum(fields: seq<string>, redaction: string, message: string, separator: string)
    returns (r: string)
    ensures r == FilterAll(fields, redaction, message, separator)
  {
    r := message;
    var i := 0;
    while i < |fields|
      invariant 0 <= i <= |fields|
      invariant r == FilterAll(fields[..i], redaction, message, separator)
    {
      assert fields[..i + 1][..i] == fields[..i];
      r := Pass(Pattern(fields[i]), separator + redaction, r);
      i := i + 1;
    }
    assert fields[..i] == fields;
  }

  // ---------------------------------------------------------------------------
  // The structure of one pass: the input cut into chunks, each chunk but the
  // last ending with a complete match; the output is those chunks with the
  // inserted text between them.

  /** All the chunks concatenated. */
  function Concat(cs: seq<string>): string
  {
    if cs == [] then [] else cs[0] + Concat(cs[1..])
  }

  /** The chunks with `sep` between each two neighbours. */
  function Join(cs: seq<string>, sep: string): string
    requires cs != []
  {
    if |cs| == 1 then cs[0] else cs[0] + sep + Join(cs[1..], sep)
  }

  /** The cut of `m` at the end of every match the pass finds. */
  function Chunks(pat: string, m: string): (cs: seq<string>)
    ensures |cs| >= 1
    ensures Concat(cs) == m
    decreases |m|
  {
    if m == [] then [[]]
    else match MatchAt(pat, m)
      case Some(n) =>
        assert m[..n] + m[n..] == m;
        [m[..n]] + Chunks(pat, m[n..])
      case None =>
        var cs := Chunks(pat, m[1..]);
        ConcatHead(m[0], cs);
        assert [m[0]] + m[1..] == m;
        [[m[0]] + cs[0]] + cs[1..]
  }

  /** A character put in front of the first chunk is in front of the whole. */
  lemma ConcatHead(c: char, cs: seq<string>)
    requires cs != []
    ensures Concat([[c] + cs[0]] + cs[1..]) == [c] + Concat(cs)
  {
    assert ([[c] + cs[0]] + cs[1..])[1..] == cs[1..];
  }

  /** `s` holds no `;`. */
  ghost predicate NoSemicolon(s: string)
  {
    forall i :: 0 <= i < |s| ==> s[i] != ';'
  }

  /** Chunk `c` ends with `pat` followed by a non-empty value free of `;`, no
      match starts in `c` before that occurrence, and the text after it
      (`next`) is empty or starts with `;`: the value is the maximal run of
      non-`;` characters. */
  ghost predicate EndsWithMatch(pat: string, c: string, next: string)
  {
    (exists k :: MatchRunsToEnd(pat, c, k) && NoMatchBefore(pat, c, k)) && (next == [] || next[0] == ';')
  }

  /** No match of `pat` starts in `c` before position `k`. */
  ghost predicate NoMatchBefore(pat: string, c: string, k: int)
  {
    forall i :: 0 <= i < k && i <= |c| ==> MatchAt(pat, c[i..]).None?
  }

  /** `pat` occurs in `c` at `k` and is followed by a non-empty value free of
      `;` that runs to the end of `c`. */
  ghost predicate MatchRunsToEnd(pat: string, c: string, k: int)
  {
    0 <= k && k + |pat| < |c| && c[k..k + |pat|] == pat && NoSemicolon(c[k + |pat|..])
  }

  /** The number of matches one pass finds. */
  function MatchCount(pat: string, m: string): nat
  {
    |Chunks(pat, m)| - 1
  }

  lemma JoinHead(c: char, cs: seq<string>, sep: string)
    requires cs != []
    ensures [c] + Join(cs, sep) == Join([[c] + cs[0]] + cs[1..], sep)
  {
    var ds := [[c] + cs[0]] + cs[1..];
    if |cs| > 1 {
      assert ds[1..] == cs[1..];
    }
  }

  /** A pass's output is its input's chunks joined by the inserted text. */
  lemma {:induction false} PassIsJoin(pat: string, ins: string, m: string)
    ensures Pass(pat, ins, m) == Join(Chunks(pat, m), ins)
    decreases |m|
  {
    if m != [] {
      match MatchAt(pat, m)
      case Some(n) =>
        PassIsJoin(pat, ins, m[n..]);
        assert ([m[..n]] + Chunks(pat, m[n..]))[1..] == Chunks(pat, m[n..]);
      case None =>
        PassIsJoin(pat, ins, m[1..]);
        JoinHead(m[0], Chunks(pat, m[1..]), ins);
    }
  }

  lemma {:induction false} JoinLength(cs: seq<string>, sep: string)
    requires cs != []
    ensures |Join(cs, sep)| == |Concat(cs)| + (|cs| - 1) * |sep|
  {
    if |cs| > 1 {
      JoinLength(cs[1..], sep);
    }
  }

  /** Every chunk but the last ends with its first match, and the last chunk
      holds no match at all. */
  ghost predicate WellChunked(pat: string, cs: seq<string>)
  {
    cs != []
    && (forall j :: 0 <= j < |cs| - 1 ==> EndsWithMatch(pat, cs[j], cs[j + 1]))
    && NoMatch(pat, cs[|cs| - 1])
  }

  /** Every chunk but the last ends with a complete match whose value runs up
      to the next `;` or the end of the line, and no other match starts in
      it; the last chunk holds no match. So the pass inserts its text after
      every match it finds and nowhere else. */
  lemma {:induction false} ChunksEndWithMatches(pat: string, m: string)
    ensures WellChunked(pat, Chunks(pat, m))
    decreases |m|
  {
    if m == [] {
      assert Chunks(pat, m) == [[]];
      ShortNoMatch(pat, []);
    } else {
      match MatchAt(pat, m)
      case Some(n) =>
        ChunksEndWithMatches(pat, m[n..]);
        ChunksAfterMatch(pat, m, n);
      case None =>
        ChunksEndWithMatches(pat, m[1..]);
        ChunksAfterMiss(pat, m);
    }
  }

  lemma ChunksAfterMatch(pat: string, m: string, n: nat)
    requires m != [] && MatchAt(pat, m) == Some(n)
    requires WellChunked(pat, Chunks(pat, m[n..]))
    ensures WellChunked(pat, Chunks(pat, m))
  {
    var cs, rest := Chunks(pat, m), Chunks(pat, m[n..]);
    assert cs == [m[..n]] + rest;
    var c := m[..n];
    assert c[0..|pat|] == pat;
    assert NoSemicolon(c[|pat|..]);
    assert MatchRunsToEnd(pat, c, 0) && NoMatchBefore(pat, c, 0);
    assert rest[0] == [] || rest[0][0] == ';' by {
      if rest[0] != [] {
        assert Concat(rest) == rest[0] + Concat(rest[1..]);
        assert m[n..][0] == rest[0][0];
      }
    }
    assert EndsWithMatch(pat, cs[0], cs[1]);
    forall j | 1 <= j < |cs| - 1
      ensures EndsWithMatch(pat, cs[j], cs[j + 1])
    {
      assert cs[j] == rest[j - 1] && cs[j + 1] == rest[j];
    }
    assert cs[|cs| - 1] == rest[|rest| - 1];
  }

  lemma ChunksAfterMiss(pat: string, m: string)
    requires m != [] && MatchAt(pat, m).None?
    requires WellChunked(pat, Chunks(pat, m[1..]))
    ensures WellChunked(pat, Chunks(pat, m))
  {
    var cs, rest := Chunks(pat, m), Chunks(pat, m[1..]);
    var head := [m[0]] + rest[0];
    assert cs == [head] + rest[1..];
    assert m == head + Concat(rest[1..]) by {
      assert Concat(rest) == rest[0] + Concat(rest[1..]);
      assert m == [m[0]] + m[1..];
    }
    if |cs| > 1 {
      assert EndsWithMatch(pat, rest[0], rest[1]);
      var k :| MatchRunsToEnd(pat, rest[0], k) && NoMatchBefore(pat, rest[0], k);
      MatchInPrefix(pat, head, Concat(rest[1..]));
      ExtendChunk(pat, m[0], rest[0], rest[1], k);
      assert cs[|cs| - 1] == rest[|rest| - 1];
    } else {
      assert rest[1..] == [] && head == m;
      NoMatchCons(pat, m);
    }
    forall j | 1 <= j < |cs| - 1
      ensures EndsWithMatch(pat, cs[j], cs[j + 1])
    {
      assert cs[j] == rest[j] && cs[j + 1] == rest[j + 1];
    }
  }

  /** A character in front of a chunk, where no match starts, keeps the
      chunk's first match at its end. */
  lemma ExtendChunk(pat: string, x: char, c: string, next: string, k: int)
    requires MatchRunsToEnd(pat, c, k) && NoMatchBefore(pat, c, k)
    requires next == [] || next[0] == ';'
    requires MatchAt(pat, [x] + c).None?
    ensures EndsWithMatch(pat, [x] + c, next)
  {
    var d := [x] + c;
    assert d[k + 1..k + 1 + |pat|] == c[k..k + |pat|];
    assert d[k + 1 + |pat|..] == c[k + |pat|..];
    assert MatchRunsToEnd(pat, d, k + 1);
    forall i | 0 <= i < k + 1 && i <= |d| ensures MatchAt(pat, d[i..]).None? {
      if i == 0 {
        assert d[0..] == d;
      } else {
        assert d[i..] == c[i - 1..];
      }
    }
  }

  /** Whether a match starts at the front is decided by the first `|pat| + 1`
      characters. */
  lemma MatchInPrefix(pat: string, d: string, t: string)
    requires |pat| < |d|
    ensures MatchAt(pat, d + t).None? <==> MatchAt(pat, d).None?
  {
    assert (d + t)[..|pat|] == d[..|pat|];
    assert (d + t)[|pat|] == d[|pat|];
  }

  /** No match in a non-empty text: none at its front and none in the rest. */
  lemma NoMatchCons(pat: string, m: string)
    requires m != []
    ensures NoMatch(pat, m) <==> MatchAt(pat, m).None? && NoMatch(pat, m[1..])
  {
    assert m[0..] == m;
    if MatchAt(pat, m).None? && NoMatch(pat, m[1..]) {
      forall i | 0 <= i <= |m| ensures MatchAt(pat, m[i..]).None? {
        if i > 0 {
          assert m[i..] == m[1..][i - 1..];
        }
      }
    }
    if NoMatch(pat, m) {
      forall i | 0 <= i <= |m[1..]| ensures MatchAt(pat, m[1..][i..]).None? {
        assert m[1..][i..] == m[i + 1..];
      }
    }
  }

  /** A pass only inserts text: with `k` matches the output is `k` copies of
      the inserted text longer than the input. */
  lemma PassLength(pat: string, ins: string, m: string)
    ensures |Pass(pat, ins, m)| == |m| + MatchCount(pat, m) * |ins|
  {
    var cs := Chunks(pat, m);
    calc {
      |Pass(pat, ins, m)|;
      { PassIsJoin(pat, ins, m); }
      |Join(cs, ins)|;
      { JoinLength(cs, ins); }
      |Concat(cs)| + (|cs| - 1) * |ins|;
      { assert |Concat(cs)| == |m| && MatchCount(pat, m) == |cs| - 1; }
      |m| + MatchCount(pat, m) * |ins|;
    }
  }

  /** The pass finds a match exactly when the pattern matches somewhere. */
  lemma {:induction false} MatchCountZero(pat: string, m: string)
    ensures MatchCount(pat, m) == 0 <==> NoMatch(pat, m)
    decreases |m|
  {
    if m == [] {
      assert MatchAt(pat, m[0..]).None?;
    } else {
      match MatchAt(pat, m)
      case Some(n) =>
        assert m[0..] == m;
      case None =>
        MatchCountZero(pat, m[1..]);
        assert |Chunks(pat, m)| == |Chunks(pat, m[1..])|;
        if NoMatch(pat, m) {
          forall i | 0 <= i <= |m[1..]| ensures MatchAt(pat, m[1..][i..]).None? {
            assert m[1..][i..] == m[i + 1..];
          }
        }
        if NoMatch(pat, m[1..]) {
          forall i | 0 <= i <= |m| ensures MatchAt(pat, m[i..]).None? {
            if i > 0 {
              assert m[i..] == m[1..][i - 1..];
            } else {
              assert m[0..] == m;
            }
          }
        }
    }
  }

  /** A pass returns its input unchanged exactly when it finds nothing to
      redact or inserts the empty text. */
  lemma PassUnchanged(pat: string, ins: string, m: string)
    ensures Pass(pat, ins, m) == m <==> (ins == [] || NoMatch(pat, m))
  {
    var k := MatchCount(pat, m);
    PassLength(pat, ins, m);
    MatchCountZero(pat, m);
    if ins == [] || NoMatch(pat, m) {
      PassIsJoin(pat, ins, m);
      JoinConcat(Chunks(pat, m), ins);
    } else {
      assert k >= 1 && |ins| >= 1;
      ProductPositive(k, |ins|);
      assert |Pass(pat, ins, m)| > |m|;
    }
  }

  lemma ProductPositive(a: nat, b: nat)
    requires a >= 1 && b >= 1
    ensures a * b >= 1
  {
  }

  lemma {:induction false} JoinConcat(cs: seq<string>, sep: string)
    requires cs != []
    requires sep == [] || |cs| == 1
    ensures Join(cs, sep) == Concat(cs)
  {
    if |cs| > 1 {
      JoinConcat(cs[1..], sep);
    } else {
      assert cs[1..] == [];
    }
  }

  /** Fields are applied in list order: the first field's pass runs on the
      original message and the remaining fields on its output. */
  lemma {:induction false} FilterAllCons(f: string, fs: seq<string>, redaction: string, message: string, separator: string)
    ensures FilterAll([f] + fs, redaction, message, separator)
         == FilterAll(fs, redaction, Pass(Pattern(f), separator + redaction, message), separator)
    decreases |fs|
  {
    var all := [f] + fs;
    if fs == [] {
      assert all[..0] == [];
    } else {
      var last := |fs| - 1;
      assert all[..|all| - 1] == [f] + fs[..last];
      assert all[|all| - 1] == fs[last];
      FilterAllCons(f, fs[..last], redaction, message, separator);
    }
  }

  /** With no field given, or no field matching anywhere in the message, the
      message comes back unchanged. */
  lemma {:induction false} FilterAllNoMatch(fields: seq<string>, redaction: string, message: string, separator: string)
    requires forall j :: 0 <= j < |fields| ==> NoMatch(Pattern(fields[j]), message)
    ensures FilterAll(fields, redaction, message, separator) == message
    decreases |fields|
  {
    if fields != [] {
      var last := |fields| - 1;
      FilterAllNoMatch(fields[..last], redaction, message, separator);
      PassUnchanged(Pattern(fields[last]), separator + redaction, message);
    }
  }

  /** Redaction never shortens a line. */
  lemma {:induction false} FilterAllGrows(fields: seq<string>, redaction: string, message: string, separator: string)
    ensures |FilterAll(fields, redaction, message, separator)| >= |message|
    decreases |fields|
  {
    if fields != [] {
      var last := |fields| - 1;
      var pat, ins := Pattern(fields[last]), separator + redaction;
      var before := FilterAll(fields[..last], redaction, message, separator);
      assert FilterAll(fields, redaction, message, separator) == Pass(pat, ins, before);
      FilterAllGrows(fields[..last], redaction, message, separator);
      PassGrows(pat, ins, before);
    }
  }

  lemma PassGrows(pat: string, ins: string, m: string)
    ensures |Pass(pat, ins, m)| >= |m|
  {
    PassLength(pat, ins, m);
    var k := MatchCount(pat, m);
    assert k * |ins| >= 0;
  }

  /** A pass copies text in which no match starts. */
  lemma {:induction false} PassSkip(pat: string, ins: string, m: string, j: nat)
    requires j <= |m|
    requires forall i :: 0 <= i < j ==> MatchAt(pat, m[i..]).None?
    ensures Pass(pat, ins, m) == m[..j] + Pass(pat, ins, m[j..])
    decreases j
  {
    if j > 0 {
      assert m[0..] == m;
      assert Pass(pat, ins, m) == [m[0]] + Pass(pat, ins, m[1..]);
      forall i | 0 <= i < j - 1 ensures MatchAt(pat, m[1..][i..]).None? {
        assert m[1..][i..] == m[i + 1..];
      }
      PassSkip(pat, ins, m[1..], j - 1);
      assert m[1..][j - 1..] == m[j..];
      assert [m[0]] + m[1..][..j - 1] == m[..j];
      AppendAssoc([m[0]], m[1..][..j - 1], Pass(pat, ins, m[j..]));
    }
  }

  lemma AppendAssoc(a: string, b: string, c: string)
    ensures a + (b + c) == (a + b) + c
  {
  }

  /** Text no longer than the pattern holds no match. */
  lemma ShortNoMatch(pat: string, m: string)
    requires |m| <= |pat|
    ensures NoMatch(pat, m)
  {
  }

  /** The run stops exactly at the end of a `;`-free value followed by `;`. */
  lemma {:induction false} RunLengthOfValue(value: string, after: string)
    requires NoSemicolon(value)
    requires after == [] || after[0] == ';'
    ensures RunLength(value + after) == |value|
  {
    if value != [] {
      assert (value + after)[1..] == value[1..] + after;
      RunLengthOfValue(value[1..], after);
    }
  }

  /** One field on a line holding one match of it: `field=value` is kept
      verbatim and `separator + redaction` is inserted right after it. No
      match may start in `before`; `value` is non-empty and free of `;`;
      `after` starts with `;` (or is empty) and holds no match. */
  lemma RedactsOneValue(before: string, field: string, value: string, after: string, redaction: string, separator: string)
    requires forall i :: 0 <= i < |before| ==> MatchAt(Pattern(field), (before + (Pattern(field) + value + after))[i..]).None?
    requires value != [] && NoSemicolon(value)
    requires after == [] || after[0] == ';'
    requires NoMatch(Pattern(field), after)
    ensures FilterAll([field], redaction, before + Pattern(field) + value + after, separator)
         == before + Pattern(field) + value + separator + redaction + after
  {
    SkipBefore(before, field, value, after, redaction, separator);
    PassOverValue(Pattern(field), separator + redaction, value, after);
    Regroup(before, Pattern(field), value, separator, redaction, after);
  }

  /** With no match starting in `before`, the single pass copies it. */
  lemma SkipBefore(before: string, field: string, value: string, after: string, redaction: string, separator: string)
    requires forall i :: 0 <= i < |before| ==> MatchAt(Pattern(field), (before + (Pattern(field) + value + after))[i..]).None?
    ensures FilterAll([field], redaction, before + Pattern(field) + value + after, separator)
         == before + Pass(Pattern(field), separator + redaction, Pattern(field) + value + after)
  {
    var t := Pattern(field) + value + after;
    assert before + Pattern(field) + value + after == before + t;
    SingleField(field, redaction, before + t, separator);
    PassAfterPrefix(Pattern(field), separator + redaction, before, t);
  }

  lemma Regroup(a: string, p: string, v: string, s: string, r: string, c: string)
    ensures a + (p + v + (s + r) + c) == a + p + v + s + r + c
  {
  }

  lemma PassAfterPrefix(pat: string, ins: string, before: string, t: string)
    requires forall i :: 0 <= i < |before| ==> MatchAt(pat, (before + t)[i..]).None?
    ensures Pass(pat, ins, before + t) == before + Pass(pat, ins, t)
  {
    var m := before + t;
    PassSkip(pat, ins, m, |before|);
    assert m[..|before|] == before;
    assert m[|before|..] == t;
  }

  lemma SingleField(field: string, redaction: string, message: string, separator: string)
    ensures FilterAll([field], redaction, message, separator)
         == Pass(Pattern(field), separator + redaction, message)
  {
    assert [field][..0] == [];
  }

  /** A pass over `pat`, a non-empty `;`-free value and the rest of the line
      keeps `pat + value`, inserts `ins` right after the value, and goes on
      with the rest of the line, whatever further matches it holds. */
  lemma PassStep(pat: string, ins: string, value: string, after: string)
    requires value != [] && NoSemicolon(value)
    requires after == [] || after[0] == ';'
    ensures Pass(pat, ins, pat + value + after) == pat + value + ins + Pass(pat, ins, after)
  {
    var t := pat + value + after;
    var n := |pat| + |value|;
    MatchOfValue(pat, value, after);
    assert t[..n] == pat + value;
    assert t[n..] == after;
  }

  /** The last match of a line: the rest is copied unchanged. */
  lemma PassOverValue(pat: string, ins: string, value: string, after: string)
    requires value != [] && NoSemicolon(value)
    requires after == [] || after[0] == ';'
    requires NoMatch(pat, after)
    ensures Pass(pat, ins, pat + value + after) == pat + value + ins + after
  {
    PassStep(pat, ins, value, after);
    PassUnchanged(pat, ins, after);
  }

  lemma MatchOfValue(pat: string, value: string, after: string)
    requires value != [] && NoSemicolon(value)
    requires after == [] || after[0] == ';'
    ensures MatchAt(pat, pat + value + after) == Some(|pat| + |value|)
  {
    var t := pat + value + after;
    assert t[..|pat|] == pat;
    assert t[|pat|] == value[0];
    assert t[|pat|..] == value + after;
    RunLengthOfValue(value, after);
  }

  /** The value is kept and the redaction inserted after it:
      `password=abc123;user=bob` becomes `password=abc123;***;user=bob`. */
  lemma ExampleValueKept()
    ensures FilterAll(["password"], "***", "password=abc123;user=bob", ";") == "password=abc123;***;user=bob"
  {
    ShortNoMatch(Pattern("password"), ";user=bob");
    RedactsOneValue("", "password", "abc123", ";user=bob", "***", ";");
    SpellValueKept();
  }

  lemma SpellValueKept()
    ensures "" + Pattern("password") + "abc123" + ";user=bob" == "password=abc123;user=bob"
    ensures "" + Pattern("password") + "abc123" + ";" + "***" + ";user=bob" == "password=abc123;***;user=bob"
  {
  }

  /** The match is not anchored at a field boundary: field `name` matches
      inside `username=bob`. */
  lemma ExampleUnanchored()
    ensures FilterAll(["name"], "***", "username=bob", ";") == "username=bob;***"
  {
    var pat := Pattern("name");
    var m := "user" + (pat + "bob" + "");
    assert pat == "name=";
    forall i | 0 <= i < 4 ensures MatchAt(pat, m[i..]).None? {
      assert m[i..][..5][4] != pat[4];
    }
    ShortNoMatch(pat, "");
    RedactsOneValue("user", "name", "bob", "", "***", ";");
    SpellUnanchored();
  }

  lemma SpellUnanchored()
    ensures "user" + Pattern("name") + "bob" + "" == "username=bob"
    ensures "user" + Pattern("name") + "bob" + ";" + "***" + "" == "username=bob;***"
  {
  }

  /** The value ends at `;` even when the separator is something else. */
  lemma ExampleSeparatorIsNotTerminator()
    ensures FilterAll(["password"], "***", "password=abc,x;y", ",") == "password=abc,x,***;y"
  {
    ShortNoMatch(Pattern("password"), ";y");
    RedactsOneValue("", "password", "abc,x", ";y", "***", ",");
    SpellSeparator();
  }

  lemma SpellSeparator()
    ensures "" + Pattern("password") + "abc,x" + ";y" == "password=abc,x;y"
    ensures "" + Pattern("password") + "abc,x" + "," + "***" + ";y" == "password=abc,x,***;y"
  {
  }

  /** Every occurrence is redacted in one pass: `password=a;password=b`
      becomes `password=a;***;password=b;***`. */
  lemma ExampleTwoValues()
    ensures FilterAll(["password"], "***", "password=a;password=b", ";") == "password=a;***;password=b;***"
  {
    var pat, ins := Pattern("password"), ";" + "***";
    var second := pat + "b" + "";
    var after := ";" + second;
    assert pat[0] == 'p';
    assert after[0..] == after && after[..|pat|][0] == ';';
    PassSkip(pat, ins, after, 1);
    assert after[..1] == ";" && after[1..] == second;
    PassStep(pat, ins, "b", "");
    PassStep(pat, ins, "a", after);
    SingleField("password", "***", pat + "a" + after, ";");
    SpellTwoValues();
  }

  lemma SpellTwoValues()
    ensures Pattern("password") + "a" + (";" + (Pattern("password") + "b" + "")) == "password=a;password=b"
    ensures Pattern("password") + "a" + (";" + "***") + (";" + (Pattern("password") + "b" + (";" + "***") + []))
         == "password=a;***;password=b;***"
  {
  }

  /** `field=` directly followed by `;` is not matched. */
  lemma ExampleEmptyValueKept()
    ensures FilterAll(["password"], "***", "password=;x", ";") == "password=;x"
  {
    var pat, m := Pattern("password"), "password=;x";
    assert pat == "password=";
    forall i | 0 <= i <= |m| ensures MatchAt(pat, m[i..]).None? {
      if i == 1 {
        assert m[1..][..9][0] != pat[0];
      }
    }
    FilterAllNoMatch(["password"], "***", m, ";");
  }

  // ---------------------------------------------------------------------------
  // The formatter.

  /** The default profile of personally identifying fields, in this order. */
  const PII_FIELDS: seq<string> := ["email", "ssn", "password", "name", "phone"]

  /** A log formatter that renders a record with the base template and then
      redacts the configured fields of the rendered line. */
  class RedactingFormatter {
    static const REDACTION: string := "***"
    static const FORMAT: string := "[HOLBERTON] %(name)s %(levelname)s %(asctime)-15s: %(message)s"
    static const SEPARATOR: string := ";"

    /** The fields to redact, fixed at construction. */
    const fields: seq<string>

    constructor (fields: seq<string>)
      ensures this.fields == fields
    {
      this.fields := fields;
    }

    /** `format`: `rendered` is the base formatter's output for the record
        (template, timestamp and message are not modelled). */
    method Format(rendered: string) returns (r: string)
      ensures r == FilterAll(fields, REDACTION, rendered, SEPARATOR)
    {
      r := FilterDatum(fields, REDACTION, rendered, SEPARATOR);
    }
  }
}
