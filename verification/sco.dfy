/**
 * `importSCO`: the line-oriented text format of static meshes. The file is
 * a sequence of lines. Keyword lines are stripped of surrounding whitespace
 * and lower-cased; `[objectbegin]` and `[objectend]` open and close an
 * object; inside one, `name=`, `centralpoint=` and `pivotpoint=` keep the
 * line's last word, and `verts=` and `faces=` read that many following
 * lines. Number syntax (`int()` and `float()`) and `str.lower()` are
 * parameters.
 */
module Sco {
  import opened Wrappers
  import opened Errors
  import opened Bytes
  import opened Lists

  // -----------------------------------------------------------------------
  // The string methods the parser uses

  /** `str.isspace` for one character. */
  predicate IsSpace(ch: char) {
    || ch == ' ' || ('\t' <= ch <= '\r') || ('\U{1c}' <= ch <= '\U{1f}')
    || ch == '\U{85}' || ch == '\U{a0}' || ch == '\U{1680}' || ('\U{2000}' <= ch <= '\U{200a}')
    || ch == '\U{2028}' || ch == '\U{2029}' || ch == '\U{202f}' || ch == '\U{205f}' || ch == '\U{3000}'
  }

  predicate AllSpace(s: string) {
    forall i :: 0 <= i < |s| ==> IsSpace(s[i])
  }

  /** `str.lstrip()`: the suffix after the leading whitespace. */
  function StripLeft(s: string): (r: string)
    ensures |r| <= |s| && r == s[|s| - |r|..]
    ensures r == [] || !IsSpace(r[0])
    ensures AllSpace(s[..|s| - |r|])
  {
    if s != [] && IsSpace(s[0]) then
      var r := StripLeft(s[1..]);
      var pre := s[..|s| - |r|];
      assert forall i :: 1 <= i < |pre| ==> pre[i] == s[1..][..|s[1..]| - |r|][i - 1];
      r
    else s
  }

  /** `str.rstrip()`: the prefix before the trailing whitespace. */
  function StripRight(s: string): (r: string)
    ensures |r| <= |s| && r == s[..|r|]
    ensures r == [] || !IsSpace(r[|r| - 1])
    ensures AllSpace(s[|r|..])
  {
    if s != [] && IsSpace(s[|s| - 1]) then
      var r := StripRight(s[..|s| - 1]);
      assert s[|r|..] == s[..|s| - 1][|r|..] + [s[|s| - 1]];
      r
    else s
  }

  /** `str.strip()`. */
  function Strip(s: string): (r: string)
    ensures |r| <= |s|
    ensures r == [] || (!IsSpace(r[0]) && !IsSpace(r[|r| - 1]))
  {
    StripRight(StripLeft(s))
  }

  /** Where the stripped text starts in `s`. */
  function StripOffset(s: string): nat
    ensures StripOffset(s) + |Strip(s)| <= |s|
  {
    |s| - |StripLeft(s)|
  }

  /** The stripped text is the slice of `s` between two all-whitespace margins. */
  lemma StripIsSlice(s: string)
    ensures var a, r := StripOffset(s), Strip(s);
      && s[a..a + |r|] == r
      && AllSpace(s[..a])
      && AllSpace(s[a + |r|..])
  {
    StripKeepsMiddle(s);
    StripDropsEnds(s);
  }

  lemma StripKeepsMiddle(s: string)
    ensures s[StripOffset(s)..StripOffset(s) + |Strip(s)|] == Strip(s)
  {
    var l := StripLeft(s);
    var r := StripRight(l);
    SliceBetween(s, |s| - |l|, l, r);
  }

  lemma StripDropsEnds(s: string)
    ensures AllSpace(s[..StripOffset(s)])
    ensures AllSpace(s[StripOffset(s) + |Strip(s)|..])
  {
    var l := StripLeft(s);
    var r := StripRight(l);
    SliceBetween(s, |s| - |l|, l, r);
  }

  /** A prefix `r` of the suffix `l` of `s` that starts at `a`, followed by whitespace. */
  lemma SliceBetween(s: string, a: nat, l: string, r: string)
    requires a <= |s| && l == s[a..]
    requires |r| <= |l| && r == l[..|r|] && AllSpace(l[|r|..])
    ensures s[a..a + |r|] == r
    ensures AllSpace(s[a + |r|..])
  {
    var tail := s[a + |r|..];
    assert tail == l[|r|..];
  }

  /** Stripping twice is stripping once. */
  lemma StripIdempotent(s: string)
    ensures Strip(Strip(s)) == Strip(s)
  {
    var r := Strip(s);
    if r != [] {
      assert StripLeft(r) == r;
      assert StripRight(r) == r;
    }
  }

  /**
   * Reference lowering of ASCII text: what Python's `str.lower()` does to a
   * string whose characters are all ASCII. One character at a time:
   */
  function LowerChar(ch: char): (r: char)
    ensures !('A' <= r <= 'Z')
    ensures 'A' <= ch <= 'Z' ==> r as int == ch as int + 32
    ensures !('A' <= ch <= 'Z') ==> r == ch
  {
    if 'A' <= ch <= 'Z' then (ch as int + 32) as char else ch
  }

  /** The same characters with every capital letter lowered. */
  function Lower(s: string): (r: string)
    ensures |r| == |s|
    ensures forall i :: 0 <= i < |s| ==> r[i] == LowerChar(s[i])
  {
    if s == [] then [] else [LowerChar(s[0])] + Lower(s[1..])
  }

  /** Lowering twice is lowering once. */
  lemma LowerIdempotent(s: string)
    ensures Lower(Lower(s)) == Lower(s)
  {
  }

  predicate StartsWith(s: string, prefix: string) {
    |prefix| <= |s| && s[..|prefix|] == prefix
  }

  /** The longest prefix of `s` without whitespace. */
  function WordAt(s: string): (w: string)
    ensures |w| <= |s| && w == s[..|w|]
    ensures forall i :: 0 <= i < |w| ==> !IsSpace(w[i])
    ensures |w| < |s| ==> IsSpace(s[|w|])
    ensures s != [] && !IsSpace(s[0]) ==> |w| > 0
  {
    if s == [] || IsSpace(s[0]) then [] else [s[0]] + WordAt(s[1..])
  }

  /** A word of `str.split()`: non-empty, without whitespace. */
  predicate IsWord(w: string) {
    w != [] && forall i :: 0 <= i < |w| ==> !IsSpace(w[i])
  }

  /** `str.split()` with no separator: the maximal runs of non-whitespace. */
  function Words(s: string): (ws: seq<string>)
    ensures forall i :: 0 <= i < |ws| ==> IsWord(ws[i])
    decreases |s|
  {
    var t := StripLeft(s);
    if t == [] then []
    else
      var w := WordAt(t);
      [w] + Words(t[|w|..])
  }

  /** A line splits into no words exactly when it is all whitespace. */
  lemma WordsEmpty(s: string)
    ensures Words(s) == [] <==> AllSpace(s)
  {
    var t := StripLeft(s);
    if t == [] {
      assert s[..|s|] == s;
    } else {
      assert s[|s| - |t|] == t[0];
    }
  }

  /** The words joined by single spaces. */
  function JoinWords(ws: seq<string>): string {
    if ws == [] then [] else if |ws| == 1 then ws[0] else ws[0] + [' '] + JoinWords(ws[1..])
  }

  lemma WordAtWord(w: string, rest: string)
    requires IsWord(w)
    requires rest == [] || IsSpace(rest[0])
    ensures WordAt(w + rest) == w
  {
    if |w| > 1 {
      assert (w + rest)[1..] == w[1..] + rest;
      WordAtWord(w[1..], rest);
    } else {
      assert (w + rest)[1..] == rest;
    }
  }

  lemma WordsAfterSpace(t: string)
    ensures Words([' '] + t) == Words(t)
  {
    assert ([' '] + t)[1..] == t;
  }

  lemma WordsOfWordFirst(w: string, rest: string)
    requires IsWord(w)
    requires rest == [] || IsSpace(rest[0])
    ensures Words(w + rest) == [w] + Words(rest)
  {
    var s := w + rest;
    assert s[0] == w[0];
    assert StripLeft(s) == s;
    WordAtWord(w, rest);
    assert s[|w|..] == rest;
  }

  lemma ConsSplit<T>(s: seq<T>)
    requires s != []
    ensures s == [s[0]] + s[1..]
  {
  }

  lemma JoinWordsCons(ws: seq<string>)
    requires |ws| > 1
    ensures JoinWords(ws) == ws[0] + ([' '] + JoinWords(ws[1..]))
  {
  }

  lemma WordsJoinStep(ws: seq<string>)
    requires |ws| > 1 && IsWord(ws[0])
    requires Words(JoinWords(ws[1..])) == ws[1..]
    ensures Words(JoinWords(ws)) == ws
  {
    var tail := JoinWords(ws[1..]);
    JoinWordsCons(ws);
    WordsOfWordFirst(ws[0], [' '] + tail);
    WordsAfterSpace(tail);
    ConsSplit(ws);
  }

  /** Splitting words joined by spaces gives the words back. */
  lemma {:induction false} WordsJoinWords(ws: seq<string>)
    requires forall k :: 0 <= k < |ws| ==> IsWord(ws[k])
    ensures Words(JoinWords(ws)) == ws
  {
    if |ws| == 1 {
      assert JoinWords(ws) == ws[0] + [];
      WordsOfWordFirst(ws[0], []);
      ConsSplit(ws);
    } else if |ws| > 1 {
      WordsJoinWords(ws[1..]);
      WordsJoinStep(ws);
    }
  }

  // -----------------------------------------------------------------------
  // Built-ins and lines

  /**
   * The Python built-ins the reader calls on text: `int()` and `float()` on
   * one word (the value, or None where they raise ValueError) and the full
   * Unicode `str.lower()`.
   */
  datatype Builtins = Builtins(parseInt: string -> Option<int>, parseFloat: string -> Option<real>,
                               lower: string -> string)

  /** `[p(x) for x in ws]`; the first word that does not parse fails line `line`. */
  function ParseAll<T>(ws: seq<string>, p: string -> Option<T>, line: nat): (r: Result<seq<T>, Error>)
    ensures r.Ok? <==> forall i :: 0 <= i < |ws| ==> p(ws[i]).Some?
    ensures r.Ok? ==> |r.value| == |ws| && forall i :: 0 <= i < |ws| ==> p(ws[i]) == Some(r.value[i])
    ensures r.Err? ==> r.error == ScoSyntax(line)
  {
    if ws == [] then Ok([])
    else
      match p(ws[0])
      case None => Err(ScoSyntax(line))
      case Some(x) =>
        var more :- ParseAll(ws[1..], p, line);
        assert forall i :: 1 <= i < |ws| ==> ws[i] == ws[1..][i - 1];
        Ok([x] + more)
  }

  /** `readline()` at line `j`: the line itself, or once the file is exhausted a line with no fields. */
  function LineAt(lines: seq<string>, j: nat): (line: string)
    ensures j < |lines| ==> line == lines[j]
    ensures j >= |lines| ==> Fields(line) == []
  {
    if j < |lines| then lines[j] else []
  }

  /** `line.strip().split()`: the words of the line. */
  function Fields(line: string): (fs: seq<string>)
    ensures forall i :: 0 <= i < |fs| ==> IsWord(fs[i])
  {
    Words(Strip(line))
  }

  /**
   * `for k in range(count): parse(readline())` from line `j`: line `p` of
   * the block parses to the block's element `p - j`, and the first line
   * that fails fails the block.
   */
  function ReadLines<T>(lines: seq<string>, j: nat, count: nat,
                        parse: (string, nat) -> Result<T, Error>): (r: Result<seq<T>, Error>)
    ensures r.Ok? <==> forall p :: j <= p < j + count ==> parse(LineAt(lines, p), p).Ok?
    ensures r.Ok? ==> |r.value| == count
    ensures r.Ok? ==> forall p :: j <= p < j + count ==> parse(LineAt(lines, p), p) == Ok(r.value[p - j])
    decreases count
  {
    if count == 0 then Ok([])
    else
      var first :- parse(LineAt(lines, j), j);
      var more :- ReadLines(lines, j + 1, count - 1, parse);
      Ok([first] + more)
  }

  // -----------------------------------------------------------------------
  // Objects

  /** One face line: three vertex ids, a material name, three UVs with `v` flipped. */
  datatype Face = Face(ids: seq<int>, material: string, uvs: seq<seq<real>>)

  /** One entry of `materialDict`: a material and the face numbers assigned to it. */
  datatype Group = Group(material: string, faces: seq<int>)

  /**
   * `scoObject`. The material dictionary is a list of groups in order of
   * insertion, as a Python dict keeps its keys.
   */
  datatype ScoObject = ScoObject(name: Option<string>, centralPoint: Option<string>,
                                 pivotPoint: Option<string>, vertices: seq<seq<real>>,
                                 faces: seq<seq<int>>, uvs: map<int, seq<seq<real>>>,
                                 materials: seq<Group>)

  const EmptyObject: ScoObject := ScoObject(None, None, None, [], [], map[], [])

  /**
   * One `faces=` line split into fields: `nVtx`, three vertex ids, the
   * material, then three (u, v) pairs. Every way it can fail (too few
   * fields, a number that does not parse) raises on this line, so only
   * whether it fails matters. `nVtx` is parsed but not checked.
   */
  function ParseFace(fs: seq<string>, num: Builtins, line: nat): (r: Result<Face, Error>)
    ensures r.Ok? <==> && |fs| >= 11
                       && (forall i :: 0 <= i < 4 ==> num.parseInt(fs[i]).Some?)
                       && (forall i :: 5 <= i < 11 ==> num.parseFloat(fs[i]).Some?)
    ensures r.Err? ==> r.error == ScoSyntax(line)
    ensures r.Ok? ==> && |r.value.ids| == 3
                      && (forall i :: 0 <= i < 3 ==> num.parseInt(fs[i + 1]) == Some(r.value.ids[i]))
                      && r.value.material == fs[4]
                      && |r.value.uvs| == 3
                      && forall t :: 0 <= t < 3 ==>
                           && |r.value.uvs[t]| == 2
                           && num.parseFloat(fs[5 + 2 * t]) == Some(r.value.uvs[t][0])
                           && num.parseFloat(fs[6 + 2 * t]) == Some(1.0 - r.value.uvs[t][1])
  {
    if |fs| < 11 then Err(ScoSyntax(line))
    else
      var ints :- ParseAll(fs[..4], num.parseInt, line);
      var floats :- ParseAll(fs[5..11], num.parseFloat, line);
      assert forall i :: 5 <= i < 11 ==> fs[i] == fs[5..11][i - 5];
      Ok(Face(ints[1..], fs[4], [[floats[0], 1.0 - floats[1]],
                                 [floats[2], 1.0 - floats[3]],
                                 [floats[4], 1.0 - floats[5]]]))
  }

  function Names(d: seq<Group>): (ns: seq<string>)
    ensures |ns| == |d| && forall i :: 0 <= i < |d| ==> ns[i] == d[i].material
  {
    if d == [] then [] else [d[0].material] + Names(d[1..])
  }

  /** `materialDict.get(m, [])`. */
  function GroupOf(d: seq<Group>, m: string): seq<int> {
    if d == [] then [] else if d[0].material == m then d[0].faces else GroupOf(d[1..], m)
  }

  /**
   * `materialDict[m].append(k)`, or `materialDict[m] = [k]` on KeyError:
   * at most one entry is added, and a new entry goes last.
   */
  function AddToGroup(d: seq<Group>, m: string, k: int): (r: seq<Group>)
    ensures |d| <= |r| <= |d| + 1
    ensures |r| == |d| + 1 ==> r[|d|] == Group(m, [k])
  {
    if d == [] then [Group(m, [k])]
    else if d[0].material == m then [d[0].(faces := d[0].faces + [k])] + d[1..]
    else [d[0]] + AddToGroup(d[1..], m, k)
  }

  /** Adding face `k` to `m` extends `m`'s list, leaves the others, and appends `m` when new. */
  lemma {:induction false} AddToGroupCorrect(d: seq<Group>, m: string, k: int)
    requires Distinct(Names(d))
    ensures Names(AddToGroup(d, m, k)) == if m in Names(d) then Names(d) else Names(d) + [m]
    ensures forall x :: GroupOf(AddToGroup(d, m, k), x) == GroupOf(d, x) + (if x == m then [k] else [])
  {
    if d != [] {
      assert Names(d) == [d[0].material] + Names(d[1..]);
      if d[0].material != m {
        assert Distinct(Names(d[1..])) by {
          assert forall i :: 0 <= i < |d| - 1 ==> Names(d[1..])[i] == Names(d)[i + 1];
        }
        AddToGroupCorrect(d[1..], m, k);
      } else {
        assert forall x :: x != m ==> GroupOf(d[1..], x) == GroupOf(d, x);
        assert forall x :: x != m ==> GroupOf(d[1..], x) == GroupOf(AddToGroup(d, m, k), x);
      }
    }
  }

  /** The material-name half of `AddToGroupCorrect`. */
  lemma AddToGroupNames(d: seq<Group>, m: string, k: int)
    requires Distinct(Names(d))
    ensures Names(AddToGroup(d, m, k)) == if m in Names(d) then Names(d) else Names(d) + [m]
  {
    AddToGroupCorrect(d, m, k);
  }

  /**
   * Faces `0 .. |mats| - 1` of one `faces=` block added to the dictionary
   * in order: at most one entry per face is added.
   */
  function AddFaces(d: seq<Group>, mats: seq<string>): (r: seq<Group>)
    ensures |d| <= |r| <= |d| + |mats|
  {
    if mats == [] then d
    else AddToGroup(AddFaces(d, mats[..|mats| - 1]), mats[|mats| - 1], |mats| - 1)
  }

  /** Reference definition: the positions of `x` in `mats`, ascending. */
  function Occurrences(mats: seq<string>, x: string): (ks: seq<int>)
    ensures forall i :: 0 <= i < |ks| ==> 0 <= ks[i] < |mats| && mats[ks[i]] == x
  {
    if mats == [] then []
    else
      var n := |mats| - 1;
      Occurrences(mats[..n], x) + (if mats[n] == x then [n] else [])
  }

  lemma NubOfDistinct<K>(ks: seq<K>)
    requires Distinct(ks)
    ensures Nub(ks) == ks
  {
    if ks != [] {
      NubOfDistinct(ks[..|ks| - 1]);
    }
  }

  /**
   * A `faces=` block lists the materials in order of first use, after those
   * already present, and keeps them distinct.
   */
  lemma {:induction false} AddFacesNames(d: seq<Group>, mats: seq<string>)
    requires Distinct(Names(d))
    ensures Names(AddFaces(d, mats)) == Nub(Names(d) + mats)
    ensures Distinct(Names(AddFaces(d, mats)))
  {
    if mats == [] {
      assert Names(d) + mats == Names(d);
      NubOfDistinct(Names(d));
    } else {
      AddFacesNames(d, mats[..|mats| - 1]);
      AddFacesNamesStep(d, mats);
    }
    NubCorrect(Names(d) + mats);
  }

  /** One more face: the names follow `Nub` by one step. */
  lemma AddFacesNamesStep(d: seq<Group>, mats: seq<string>)
    requires mats != []
    requires Names(AddFaces(d, mats[..|mats| - 1])) == Nub(Names(d) + mats[..|mats| - 1])
    requires Distinct(Names(AddFaces(d, mats[..|mats| - 1])))
    ensures Names(AddFaces(d, mats)) == Nub(Names(d) + mats)
  {
    var n := |mats| - 1;
    var prev := AddFaces(d, mats[..n]);
    var m := mats[n];
    assert Names(d) + mats == (Names(d) + mats[..n]) + [m];
    NubSnoc(Names(d) + mats[..n], m);
    AddToGroupNames(prev, m, n);
  }

  lemma AddFacesDistinct(d: seq<Group>, mats: seq<string>)
    requires Distinct(Names(d))
    ensures Distinct(Names(AddFaces(d, mats)))
  {
    AddFacesNames(d, mats);
  }

  /**
   * A `faces=` block groups the face numbers by material: each material's
   * list gains the block positions where it occurs.
   */
  lemma {:induction false} AddFacesGroups(d: seq<Group>, mats: seq<string>)
    requires Distinct(Names(d))
    ensures forall x :: GroupOf(AddFaces(d, mats), x) == GroupOf(d, x) + Occurrences(mats, x)
  {
    if mats != [] {
      var n := |mats| - 1;
      var prev := AddFaces(d, mats[..n]);
      AddFacesGroups(d, mats[..n]);
      AddFacesDistinct(d, mats[..n]);
      AddToGroupCorrect(prev, mats[n], n);
      forall x ensures GroupOf(AddFaces(d, mats), x) == GroupOf(d, x) + Occurrences(mats, x) {
        var extra := if mats[n] == x then [n] else [];
        assert GroupOf(AddFaces(d, mats), x) == GroupOf(prev, x) + extra;
        assert GroupOf(prev, x) == GroupOf(d, x) + Occurrences(mats[..n], x);
        assert Occurrences(mats, x) == Occurrences(mats[..n], x) + extra;
      }
    }
  }

  function FaceIds(fs: seq<Face>): seq<seq<int>> {
    seq(|fs|, k requires 0 <= k < |fs| => fs[k].ids)
  }

  function FaceMaterials(fs: seq<Face>): seq<string> {
    seq(|fs|, k requires 0 <= k < |fs| => fs[k].material)
  }

  /** `uvDict[k] = uvs` for every face `k` of the block. */
  function FaceUvs(fs: seq<Face>): map<int, seq<seq<real>>> {
    map k | 0 <= k < |fs| :: fs[k].uvs
  }

  /**
   * The effect of one `faces=` block on the open object. A face that does
   * not parse aborts the whole import, so the block is parsed before it is
   * applied.
   */
  function ApplyFaces(o: ScoObject, fs: seq<Face>): (r: ScoObject)
    ensures r.name == o.name && r.centralPoint == o.centralPoint && r.pivotPoint == o.pivotPoint
    ensures r.vertices == o.vertices
    ensures |o.materials| <= |r.materials| <= |o.materials| + |fs|
  {
    o.(faces := o.faces + FaceIds(fs),
       uvs := o.uvs + FaceUvs(fs),
       materials := AddFaces(o.materials, FaceMaterials(fs)))
  }

  /** A block keeps the material names distinct. */
  lemma ApplyFacesDistinct(o: ScoObject, fs: seq<Face>)
    requires Distinct(Names(o.materials))
    ensures Distinct(Names(ApplyFaces(o, fs).materials))
  {
    AddFacesNames(o.materials, FaceMaterials(fs));
  }

  /**
   * A block groups its faces by material: each material's list gains the
   * block positions where it occurs, and new materials follow the old ones
   * in order of first use.
   */
  lemma ApplyFacesGroups(o: ScoObject, fs: seq<Face>)
    requires Distinct(Names(o.materials))
    ensures Names(ApplyFaces(o, fs).materials) == Nub(Names(o.materials) + FaceMaterials(fs))
    ensures forall x :: GroupOf(ApplyFaces(o, fs).materials, x)
                        == GroupOf(o.materials, x) + Occurrences(FaceMaterials(fs), x)
  {
    AddFacesNames(o.materials, FaceMaterials(fs));
    AddFacesGroups(o.materials, FaceMaterials(fs));
  }

  /**
   * A block appends its faces' vertex ids and records face `k`'s UVs under
   * `k`, replacing what an earlier block stored there; other UV entries stay.
   */
  lemma ApplyFacesLists(o: ScoObject, fs: seq<Face>)
    ensures var r := ApplyFaces(o, fs);
      && |r.faces| == |o.faces| + |fs|
      && r.faces[..|o.faces|] == o.faces
      && (forall k :: 0 <= k < |fs| ==> r.faces[|o.faces| + k] == fs[k].ids)
      && (forall k :: k in r.uvs <==> k in o.uvs || 0 <= k < |fs|)
      && (forall k :: 0 <= k < |fs| ==> r.uvs[k] == fs[k].uvs)
      && (forall k :: k in o.uvs && !(0 <= k < |fs|) ==> r.uvs[k] == o.uvs[k])
  {
  }

  /** The last word of a keyword line, `line.split()[-1]`. */
  function LastWord(line: string): string
    requires !AllSpace(line)
  {
    WordsEmpty(line);
    var ws := Words(line);
    ws[|ws| - 1]
  }

  /** The last word of words joined by spaces is the last of them. */
  lemma LastWordJoin(ws: seq<string>)
    requires ws != [] && forall k :: 0 <= k < |ws| ==> IsWord(ws[k])
    ensures !AllSpace(JoinWords(ws)) && LastWord(JoinWords(ws)) == ws[|ws| - 1]
  {
    var line := JoinWords(ws);
    WordsJoinWords(ws);
    assert Words(line) == ws;
    WordsEmpty(line);
    assert !AllSpace(line);
    assert LastWord(line) == Words(line)[|ws| - 1];
  }

  /** A line that starts with a keyword is not blank, so it has a last word. */
  lemma KeywordLine(line: string, keyword: string)
    requires StartsWith(line, keyword) && keyword != [] && !IsSpace(keyword[0])
    ensures !AllSpace(line)
  {
    assert line[0] == keyword[0];
  }

  const BeginKeyword: string := "[objectbegin]"
  const EndKeyword: string := "[objectend]"

  /** The keyword form of line `i`: stripped and lower-cased. */
  function KeywordLineAt(lines: seq<string>, i: nat, num: Builtins): string
    requires i < |lines|
  {
    num.lower(Strip(lines[i]))
  }

  /** `[float(x) for x in readline().strip().split()]`. */
  function VertexParser(num: Builtins): (string, nat) -> Result<seq<real>, Error> {
    (l: string, j: nat) => ParseAll(Fields(l), num.parseFloat, j)
  }

  /** One face line, as `ParseFace` reads it. */
  function FaceParser(num: Builtins): (string, nat) -> Result<Face, Error> {
    (l: string, j: nat) => ParseFace(Fields(l), num, j)
  }

  /** `int(line.split()[-1])` for the `verts=` and `faces=` counts. */
  function BlockCount(line: string, num: Builtins, i: nat): (r: Result<nat, Error>)
    requires !AllSpace(line)
    ensures r.Ok? <==> num.parseInt(LastWord(line)).Some?
    ensures r.Ok? ==> r.value == RangeCount(num.parseInt(LastWord(line)).value)
  {
    match num.parseInt(LastWord(line))
    case None => Err(ScoSyntax(i))
    case Some(n) => Ok(RangeCount(n))
  }

  /**
   * The block after a `verts=N` or `faces=N` line `i`: the next N lines
   * (none when N is negative), each parsed with `parse`. Line `p` of the
   * block gives the element `p - i - 1`; a count or a line that does not
   * parse fails the whole block.
   */
  function Block<T>(lines: seq<string>, i: nat, line: string, num: Builtins,
                    parse: (string, nat) -> Result<T, Error>): (r: Result<seq<T>, Error>)
    requires !AllSpace(line)
    ensures var n := num.parseInt(LastWord(line));
      r.Ok? <==> n.Some? && forall p :: i < p <= i + RangeCount(n.value) ==> parse(LineAt(lines, p), p).Ok?
    ensures r.Ok? ==> && |r.value| == RangeCount(num.parseInt(LastWord(line)).value)
                      && forall p :: i < p <= i + |r.value| ==> parse(LineAt(lines, p), p) == Ok(r.value[p - i - 1])
  {
    var count :- BlockCount(line, num, i);
    ReadLines(lines, i + 1, count, parse)
  }

  /**
   * A keyword line inside an object: the object as it stands afterwards and
   * the next line the main loop reads. `verts=` and `faces=` consume the
   * lines of their block; other lines change nothing.
   */
  function EditObject(lines: seq<string>, i: nat, line: string, o: ScoObject, num: Builtins)
    : (r: Result<(ScoObject, nat), Error>)
    requires i < |lines| && Distinct(Names(o.materials))
    ensures r.Ok? ==> r.value.1 > i
    ensures r.Ok? ==> Distinct(Names(r.value.0.materials))
  {
    if StartsWith(line, "name=") then
      KeywordLine(line, "name=");
      Ok((o.(name := Some(LastWord(line))), i + 1))
    else if StartsWith(line, "centralpoint=") then
      KeywordLine(line, "centralpoint=");
      Ok((o.(centralPoint := Some(LastWord(line))), i + 1))
    else if StartsWith(line, "pivotpoint=") then
      KeywordLine(line, "pivotpoint=");
      Ok((o.(pivotPoint := Some(LastWord(line))), i + 1))
    else if StartsWith(line, "verts=") then
      KeywordLine(line, "verts=");
      EditVerts(lines, i, line, o, num)
    else if StartsWith(line, "faces=") then
      KeywordLine(line, "faces=");
      EditFaces(lines, i, line, o, num)
    else
      Ok((o, i + 1))
  }

  /** The `verts=` branch of `EditObject`. */
  function EditVerts(lines: seq<string>, i: nat, line: string, o: ScoObject, num: Builtins)
    : (r: Result<(ScoObject, nat), Error>)
    requires !AllSpace(line)
    ensures r.Ok? ==> r.value.1 > i && r.value.0.materials == o.materials
  {
    var vs :- Block(lines, i, line, num, VertexParser(num));
    Ok((o.(vertices := o.vertices + vs), i + 1 + |vs|))
  }

  /** The `faces=` branch of `EditObject`. */
  function EditFaces(lines: seq<string>, i: nat, line: string, o: ScoObject, num: Builtins)
    : (r: Result<(ScoObject, nat), Error>)
    requires !AllSpace(line) && Distinct(Names(o.materials))
    ensures r.Ok? ==> r.value.1 > i && Distinct(Names(r.value.0.materials))
  {
    var fs :- Block(lines, i, line, num, FaceParser(num));
    ApplyFacesDistinct(o, fs);
    Ok((ApplyFaces(o, fs), i + 1 + |fs|))
  }

  /** Every object's material names are distinct, as dictionary keys are. */
  predicate WellFormed(objs: seq<ScoObject>) {
    forall k :: 0 <= k < |objs| ==> Distinct(Names(objs[k].materials))
  }

  /** The main loop's state: the next line, whether the last object is open, the objects so far. */
  datatype ScanState = ScanState(next: nat, inObject: bool, objects: seq<ScoObject>)

  /** How many leading objects are closed, and so final. */
  function Closed(inObject: bool, objs: seq<ScoObject>): int {
    |objs| - (if inObject then 1 else 0)
  }

  /**
   * One pass of the main loop at line `i`. `[objectbegin]` opens an object
   * only outside one, `[objectend]` closes only inside one, and other lines
   * matter only inside an object. Closed objects never change.
   */
  function Step(lines: seq<string>, i: nat, line: string, inObject: bool, objs: seq<ScoObject>,
                num: Builtins): (r: Result<ScanState, Error>)
    requires i < |lines| && (inObject ==> objs != []) && WellFormed(objs)
    ensures r.Ok? ==> && r.value.next > i
                      && (r.value.inObject ==> r.value.objects != [])
                      && WellFormed(r.value.objects)
                      && Closed(inObject, objs) <= Closed(r.value.inObject, r.value.objects)
                      && Closed(inObject, objs) <= |r.value.objects|
                      && forall k :: 0 <= k < Closed(inObject, objs) ==> r.value.objects[k] == objs[k]
  {
    if StartsWith(line, BeginKeyword) && !inObject then
      Ok(ScanState(i + 1, true, objs + [EmptyObject]))
    else if StartsWith(line, EndKeyword) && inObject then
      Ok(ScanState(i + 1, false, objs))
    else if !inObject then
      Ok(ScanState(i + 1, false, objs))
    else
      var n := |objs| - 1;
      var edit :- EditObject(lines, i, line, objs[n], num);
      Ok(ScanState(edit.1, true, objs[n := edit.0]))
  }

  /** The keyword form of every line, as the main loop tests it. */
  function KeywordLines(lines: seq<string>, num: Builtins): (keys: seq<string>)
    ensures |keys| == |lines|
    ensures forall i :: 0 <= i < |lines| ==> keys[i] == KeywordLineAt(lines, i, num)
  {
    seq(|lines|, i requires 0 <= i < |lines| => KeywordLineAt(lines, i, num))
  }

  /**
   * The main loop from line `i`, where `keys` holds each line's keyword form.
   * Objects closed before line `i` come out unchanged.
   */
  function Scan(lines: seq<string>, keys: seq<string>, i: nat, inObject: bool, objs: seq<ScoObject>,
                num: Builtins): (r: Result<seq<ScoObject>, Error>)
    requires |keys| == |lines| && (inObject ==> objs != []) && WellFormed(objs)
    ensures r.Ok? ==> && WellFormed(r.value)
                      && Closed(inObject, objs) <= |r.value|
                      && forall k :: 0 <= k < Closed(inObject, objs) ==> r.value[k] == objs[k]
    decreases |lines| - i
  {
    if i >= |lines| then Ok(objs)
    else
      var st :- Step(lines, i, keys[i], inObject, objs, num);
      Scan(lines, keys, st.next, st.inObject, st.objects, num)
  }

  /** `importSCO` over the file's lines. */
  function ImportSco(lines: seq<string>, num: Builtins): (r: Result<seq<ScoObject>, Error>)
    ensures r.Ok? ==> WellFormed(r.value)
  {
    Scan(lines, KeywordLines(lines, num), 0, false, [], num)
  }

  /** Outside an object, every line but an opening one is skipped. */
  lemma {:induction false} ScanOutside(lines: seq<string>, keys: seq<string>, i: nat,
                                       objs: seq<ScoObject>, num: Builtins)
    requires |keys| == |lines| && WellFormed(objs)
    requires forall j :: i <= j < |lines| ==> !StartsWith(keys[j], BeginKeyword)
    ensures Scan(lines, keys, i, false, objs, num) == Ok(objs)
    decreases |lines| - i
  {
    if i < |lines| {
      ScanOutside(lines, keys, i + 1, objs, num);
    }
  }

  /** A file without an `[objectbegin]` line holds no objects. */
  lemma NoBeginNoObjects(lines: seq<string>, num: Builtins)
    requires forall j :: 0 <= j < |lines| ==> !StartsWith(KeywordLineAt(lines, j, num), BeginKeyword)
    ensures ImportSco(lines, num) == Ok([])
  {
    ScanOutside(lines, KeywordLines(lines, num), 0, [], num);
  }

  /** Outside an object, `[objectbegin]` opens a fresh one. */
  lemma BeginOutsideOpens(lines: seq<string>, i: nat, line: string, objs: seq<ScoObject>, num: Builtins)
    requires WellFormed(objs)
    requires i < |lines| && StartsWith(line, BeginKeyword)
    ensures Step(lines, i, line, false, objs, num) == Ok(ScanState(i + 1, true, objs + [EmptyObject]))
  {
  }

  /** A line inside an object that starts with none of the field keywords changes nothing. */
  lemma EditOtherLine(lines: seq<string>, i: nat, line: string, o: ScoObject, num: Builtins)
    requires i < |lines| && Distinct(Names(o.materials))
    requires line != [] && line[0] !in "ncpvf"
    ensures EditObject(lines, i, line, o, num) == Ok((o, i + 1))
  {
    assert !StartsWith(line, "name=") && !StartsWith(line, "centralpoint=")
        && !StartsWith(line, "pivotpoint=") && !StartsWith(line, "verts=")
        && !StartsWith(line, "faces=") by {
      assert line[0] != 'n' && line[0] != 'c' && line[0] != 'p' && line[0] != 'v' && line[0] != 'f';
    }
  }

  /** Inside an object, a second `[objectbegin]` is ignored: no new object starts. */
  lemma BeginInsideIgnored(lines: seq<string>, i: nat, line: string, objs: seq<ScoObject>, num: Builtins)
    requires objs != [] && WellFormed(objs)
    requires i < |lines| && StartsWith(line, BeginKeyword)
    ensures Step(lines, i, line, true, objs, num) == Ok(ScanState(i + 1, true, objs))
  {
    var n := |objs| - 1;
    assert line[0] == '[' && line[7] == 'b';
    EditOtherLine(lines, i, line, objs[n], num);
    assert objs[n := objs[n]] == objs;
  }

  /** Outside an object, `[objectend]` is ignored. */
  lemma EndOutsideIgnored(lines: seq<string>, i: nat, line: string, objs: seq<ScoObject>, num: Builtins)
    requires WellFormed(objs)
    requires i < |lines| && StartsWith(line, EndKeyword)
    ensures Step(lines, i, line, false, objs, num) == Ok(ScanState(i + 1, false, objs))
  {
    assert !StartsWith(line, BeginKeyword) by {
      if |line| >= |BeginKeyword| {
        assert line[7] == EndKeyword[7] != BeginKeyword[7];
      }
    }
  }

  /** Inside an object, `[objectend]` closes it. */
  lemma EndInsideCloses(lines: seq<string>, i: nat, line: string, objs: seq<ScoObject>, num: Builtins)
    requires objs != [] && WellFormed(objs)
    requires i < |lines| && StartsWith(line, EndKeyword)
    ensures Step(lines, i, line, true, objs, num) == Ok(ScanState(i + 1, false, objs))
  {
  }

  /**
   * A `faces=N` line reads the next N lines as faces (none when N is
   * negative) and applies them to the object; reading resumes after the block.
   */
  lemma FacesEdit(lines: seq<string>, i: nat, line: string, o: ScoObject, num: Builtins)
    requires i < |lines| && Distinct(Names(o.materials))
    requires StartsWith(line, "faces=") && !AllSpace(line)
    ensures var r := EditObject(lines, i, line, o, num);
            var b := Block(lines, i, line, num, FaceParser(num));
      && (r.Ok? <==> b.Ok?)
      && (r.Ok? ==> r.value.0 == ApplyFaces(o, b.value) && r.value.1 == i + 1 + |b.value|)
  {
    FacesDispatch(lines, i, line, o, num);
    EditFacesBlock(lines, i, line, o, num);
  }

  lemma EditFacesBlock(lines: seq<string>, i: nat, line: string, o: ScoObject, num: Builtins)
    requires Distinct(Names(o.materials)) && !AllSpace(line)
    ensures var r := EditFaces(lines, i, line, o, num);
            var b := Block(lines, i, line, num, FaceParser(num));
      && (r.Ok? <==> b.Ok?)
      && (r.Ok? ==> r.value.0 == ApplyFaces(o, b.value) && r.value.1 == i + 1 + |b.value|)
  {
  }

  lemma FacesDispatch(lines: seq<string>, i: nat, line: string, o: ScoObject, num: Builtins)
    requires i < |lines| && Distinct(Names(o.materials))
    requires StartsWith(line, "faces=") && !AllSpace(line)
    ensures EditObject(lines, i, line, o, num) == EditFaces(lines, i, line, o, num)
  {
    assert line[0] == 'f';
    assert !StartsWith(line, "name=") && !StartsWith(line, "centralpoint=")
        && !StartsWith(line, "pivotpoint=") && !StartsWith(line, "verts=");
  }

  /** A `verts=N` line appends the next N lines' coordinates to the object's vertices. */
  lemma VertsEdit(lines: seq<string>, i: nat, line: string, o: ScoObject, num: Builtins)
    requires i < |lines| && Distinct(Names(o.materials))
    requires StartsWith(line, "verts=") && !AllSpace(line)
    ensures var r := EditObject(lines, i, line, o, num);
            var b := Block(lines, i, line, num, VertexParser(num));
      && (r.Ok? <==> b.Ok?)
      && (r.Ok? ==> r.value.0 == o.(vertices := o.vertices + b.value) && r.value.1 == i + 1 + |b.value|)
  {
    VertsDispatch(lines, i, line, o, num);
  }

  lemma VertsDispatch(lines: seq<string>, i: nat, line: string, o: ScoObject, num: Builtins)
    requires i < |lines| && Distinct(Names(o.materials))
    requires StartsWith(line, "verts=") && !AllSpace(line)
    ensures EditObject(lines, i, line, o, num) == EditVerts(lines, i, line, o, num)
  {
    assert line[0] == 'v';
    assert !StartsWith(line, "name=") && !StartsWith(line, "centralpoint=")
        && !StartsWith(line, "pivotpoint=");
  }

  /** Inside an object, any line but `[objectend]` edits the open object and keeps it open. */
  lemma InsideEdits(lines: seq<string>, i: nat, line: string, objs: seq<ScoObject>, num: Builtins)
    requires objs != [] && WellFormed(objs)
    requires i < |lines| && !StartsWith(line, EndKeyword)
    ensures var n := |objs| - 1;
            var r := Step(lines, i, line, true, objs, num);
            var e := EditObject(lines, i, line, objs[n], num);
      && (r.Ok? <==> e.Ok?)
      && (r.Ok? ==> r.value == ScanState(e.value.1, true, objs[n := e.value.0]))
  {
  }

  /** `str.lstrip()` drops exactly the whitespace in front of a non-blank text. */
  lemma {:induction false} StripLeftPad(pad: string, t: string)
    requires AllSpace(pad) && (t == [] || !IsSpace(t[0]))
    ensures StripLeft(pad + t) == t
  {
    if pad == [] {
      assert pad + t == t;
    } else {
      assert (pad + t)[0] == pad[0];
      assert (pad + t)[1..] == pad[1..] + t;
      StripLeftPad(pad[1..], t);
    }
  }

  /** `str.rstrip()` keeps a leading word. */
  lemma StripRightKeepsWord(w: string, rest: string)
    requires IsWord(w)
    ensures StartsWith(StripRight(w + rest), w)
  {
    var s := w + rest;
    var r := StripRight(s);
    forall k | |r| <= k < |s| ensures IsSpace(s[k]) {
      assert s[k] == s[|r|..][k - |r|];
    }
    assert !IsSpace(s[|w| - 1]);
    assert r[..|w|] == s[..|w|];
  }

  /** A prefix that lowers to `word` makes the lowered text start with `word`. */
  lemma LowerPrefix(t: string, u: string)
    requires StartsWith(t, u)
    ensures StartsWith(Lower(t), Lower(u))
  {
    forall k | 0 <= k < |u| ensures Lower(t)[k] == Lower(u)[k] {
      assert t[k] == u[k];
    }
  }

  /** Lowering undoes raising on a lower-case word. */
  lemma LowerUpper(word: string)
    requires Lower(word) == word
    ensures Lower(Upper(word)) == word
  {
    forall k | 0 <= k < |word| ensures Lower(Upper(word))[k] == word[k] {
      assert LowerChar(word[k]) == word[k];
    }
  }

  /** Keywords match whatever their case, after any leading whitespace. */
  lemma KeywordIgnoresCase(pad: string, word: string, rest: string)
    requires AllSpace(pad)
    requires IsWord(word) && Lower(word) == word
    ensures StartsWith(Lower(Strip(pad + Upper(word) + rest)), word)
  {
    var u := Upper(word);
    assert IsWord(u) by {
      forall k | 0 <= k < |u| ensures !IsSpace(u[k]) {
        assert !IsSpace(word[k]);
      }
    }
    assert pad + u + rest == pad + (u + rest);
    StripLeftPad(pad, u + rest);
    StripRightKeepsWord(u, rest);
    LowerPrefix(Strip(pad + u + rest), u);
    LowerUpper(word);
  }

  /** `str.upper()` on the ASCII letters, used to state case-insensitivity. */
  function Upper(s: string): (r: string)
    ensures |r| == |s|
    ensures forall i :: 0 <= i < |s| ==> ('a' <= s[i] <= 'z' ==> r[i] as int == s[i] as int - 32)
    ensures forall i :: 0 <= i < |s| ==> (!('a' <= s[i] <= 'z') ==> r[i] == s[i])
  {
    if s == [] then []
    else [if 'a' <= s[0] <= 'z' then (s[0] as int - 32) as char else s[0]] + Upper(s[1..])
  }

  predicate IsAscii(s: string) {
    forall i :: 0 <= i < |s| ==> s[i] as int < 0x80
  }

  /** A `lower` that, like Python's, lowers ASCII text letter by letter. */
  ghost predicate LowersAscii(num: Builtins) {
    forall s :: IsAscii(s) ==> num.lower(s) == Lower(s)
  }

  /**
   * An ASCII line that holds a keyword in any case, after any leading
   * whitespace, is recognised by that keyword.
   */
  lemma KeywordLineIgnoresCase(lines: seq<string>, i: nat, num: Builtins,
                               pad: string, word: string, rest: string)
    requires LowersAscii(num)
    requires i < |lines| && lines[i] == pad + Upper(word) + rest && IsAscii(lines[i])
    requires AllSpace(pad) && IsWord(word) && Lower(word) == word
    ensures StartsWith(KeywordLineAt(lines, i, num), word)
  {
    var r := Strip(lines[i]);
    StripAscii(lines[i]);
    assert num.lower(r) == Lower(r);
    KeywordIgnoresCase(pad, word, rest);
  }

  /** Stripping ASCII text leaves ASCII text. */
  lemma StripAscii(s: string)
    requires IsAscii(s)
    ensures IsAscii(Strip(s))
  {
    var a, r := StripOffset(s), Strip(s);
    StripKeepsMiddle(s);
    forall k | 0 <= k < |r| ensures r[k] as int < 0x80 {
      assert r[k] == s[a..a + |r|][k] == s[a + k];
    }
  }
}
