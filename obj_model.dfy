/**
 * The Wavefront OBJ loader of src/model.rs. A file is given as its sequence of lines
 * (reading the file is not modelled); each line is dispatched on its prefix, and the
 * accepted vertex, normal and face entries are collected in order. The `f32` number
 * parser is a parameter `parse`, so the model holds for any float parser.
 *
 * Two of the source's panics are modelled as values: `Vec3::from_slice` indexing past
 * fewer than three parsed numbers, and the `usize` subtraction `x - 1` on a face index 0.
 * A panic ends the whole load, which the loader reports as `Panicked(line)`.
 */
module ObjModel {
  import opened Wrappers
  import opened Math

  /** 2^64: a `usize` lies in 0 .. USIZE_LIMIT - 1. */
  const USIZE_LIMIT: nat := 0x1_0000_0000_0000_0000

  // ---------------------------------------------------------------- tokens

  /** The characters `split_ascii_whitespace` splits at: space, tab, line feed, form feed, carriage return. */
  predicate IsAsciiWhitespace(ch: char)
  {
    ch == ' ' || ch == '\t' || ch == '\n' || ch == '\U{000C}' || ch == '\r'
  }

  /** A token: a non-empty run of non-whitespace characters. */
  predicate IsToken(t: string)
  {
    |t| > 0 && forall k :: 0 <= k < |t| ==> !IsAsciiWhitespace(t[k])
  }

  /** The length of the leading run of non-whitespace characters. */
  function WordLength(s: string): (n: nat)
    ensures n <= |s|
    ensures forall k :: 0 <= k < n ==> !IsAsciiWhitespace(s[k])
    ensures n < |s| ==> IsAsciiWhitespace(s[n])
  {
    if s == [] || IsAsciiWhitespace(s[0]) then 0 else 1 + WordLength(s[1..])
  }

  /** `str::split_ascii_whitespace`: the maximal non-whitespace runs, in order. */
  function Tokens(s: string): (r: seq<string>)
    ensures forall k :: 0 <= k < |r| ==> IsToken(r[k])
    decreases |s|
  {
    if s == [] then []
    else if IsAsciiWhitespace(s[0]) then Tokens(s[1..])
    else
      var n := WordLength(s);
      [s[..n]] + Tokens(s[n..])
  }

  /** `Iterator::take(n)` on a sequence. */
  function Take<T>(s: seq<T>, n: nat): (r: seq<T>)
    ensures |r| == Min(n, |s|) && r == s[..|r|]
  {
    s[..Min(n, |s|)]
  }

  /** The tokens written out with one space after each. */
  function Spaced(ws: seq<string>): string
  {
    if ws == [] then [] else ws[0] + [' '] + Spaced(ws[1..])
  }

  /** A whitespace-free word followed by a space is one whole token. */
  lemma {:induction false} WordLengthOfWord(w: string, rest: string)
    requires IsToken(w)
    ensures WordLength(w + [' '] + rest) == |w|
  {
    var s := w + [' '] + rest;
    if |w| > 1 {
      assert s[1..] == w[1..] + [' '] + rest;
      WordLengthOfWord(w[1..], rest);
    } else {
      assert s[1..] == [' '] + rest;
    }
  }

  /** Splitting tokens written out with spaces gives back the tokens. */
  lemma {:induction false} TokensOfSpaced(ws: seq<string>)
    requires forall k :: 0 <= k < |ws| ==> IsToken(ws[k])
    ensures Tokens(Spaced(ws)) == ws
  {
    if ws != [] {
      var w, rest := ws[0], Spaced(ws[1..]);
      var s := w + [' '] + rest;
      assert Spaced(ws) == s;
      WordLengthOfWord(w, rest);
      assert s[..|w|] == w;
      assert s[|w|..] == [' '] + rest;
      assert ([' '] + rest)[1..] == rest;
      TokensOfSpaced(ws[1..]);
    }
  }

  /** The tokens written out one after another, with nothing between them. */
  function Join(ws: seq<string>): string
  {
    if ws == [] then [] else ws[0] + Join(ws[1..])
  }

  /** The text with every ASCII whitespace character removed. */
  function Squeezed(s: string): string
  {
    if s == [] then [] else (if IsAsciiWhitespace(s[0]) then [] else [s[0]]) + Squeezed(s[1..])
  }

  /** Removing whitespace from two pieces of a text is removing it from the whole. */
  lemma {:induction false} SqueezedSplit(s: string, n: nat)
    requires n <= |s|
    ensures Squeezed(s) == Squeezed(s[..n]) + Squeezed(s[n..])
    decreases n
  {
    if n > 0 {
      SqueezedSplit(s[1..], n - 1);
      assert s[..n][1..] == s[1..][..n - 1];
      assert s[1..][n - 1..] == s[n..];
    } else {
      assert s[n..] == s;
    }
  }

  /** A text without whitespace is left as it is. */
  lemma {:induction false} SqueezedWord(w: string)
    requires forall k :: 0 <= k < |w| ==> !IsAsciiWhitespace(w[k])
    ensures Squeezed(w) == w
    decreases |w|
  {
    if w != [] {
      SqueezedWord(w[1..]);
      assert w == [w[0]] + w[1..];
    }
  }

  /**
   * `split_ascii_whitespace` loses nothing but the whitespace: its tokens written one
   * after another are the text with its ASCII whitespace removed, whatever the runs of
   * spaces, tabs or line breaks between, before or after them.
   */
  lemma {:induction false} TokensJoin(s: string)
    ensures Join(Tokens(s)) == Squeezed(s)
    decreases |s|
  {
    if s == [] {
    } else if IsAsciiWhitespace(s[0]) {
      TokensJoin(s[1..]);
    } else {
      var n := WordLength(s);
      var r := [s[..n]] + Tokens(s[n..]);
      assert Tokens(s) == r;
      assert r[0] == s[..n] && r[1..] == Tokens(s[n..]);
      TokensJoin(s[n..]);
      SqueezedSplit(s, n);
      SqueezedWord(s[..n]);
    }
  }

  // ---------------------------------------------------------------- numbers

  predicate IsDigit(ch: char)
  {
    '0' <= ch <= '9'
  }

  predicate AllDigits(s: string)
  {
    forall k :: 0 <= k < |s| ==> IsDigit(s[k])
  }

  /** The value of a decimal numeral, most significant digit first (meaningful when AllDigits holds). */
  function DigitsValue(s: string): int
  {
    if s == [] then 0 else 10 * DigitsValue(s[..|s| - 1]) + (s[|s| - 1] as int - '0' as int)
  }

  /**
   * `str::parse::<usize>`: an optional leading `+`, then one or more ASCII digits whose
   * value fits in a `usize`; anything else (empty text, a lone `+`, a `-`, another
   * character, an overflow) is an error.
   */
  function ParseUsize(s: string): (r: Option<nat>)
    ensures r.Some? ==> r.value < USIZE_LIMIT && |s| > 0
  {
    var d := if |s| > 0 && s[0] == '+' then s[1..] else s;
    if |d| > 0 && AllDigits(d) && 0 <= DigitsValue(d) < USIZE_LIMIT then Some(DigitsValue(d)) else None
  }

  /** The shortest decimal numeral of n. */
  function Decimal(n: nat): (r: string)
    ensures |r| > 0 && AllDigits(r)
  {
    var last := ['0' + (n % 10) as char];
    if n < 10 then last else Decimal(n / 10) + last
  }

  lemma {:induction false} DecimalValue(n: nat)
    ensures DigitsValue(Decimal(n)) == n
  {
    var r := Decimal(n);
    if n >= 10 {
      assert r[..|r| - 1] == Decimal(n / 10);
      DecimalValue(n / 10);
    }
  }

  /** Every `usize` written in decimal, with or without a `+`, parses back to itself. */
  lemma {:induction false} ParseUsizeDecimal(n: nat)
    requires n < USIZE_LIMIT
    ensures ParseUsize(Decimal(n)) == Some(n)
    ensures ParseUsize(['+'] + Decimal(n)) == Some(n)
  {
    DecimalValue(n);
    assert (['+'] + Decimal(n))[1..] == Decimal(n);
  }

  // ---------------------------------------------------------------- faces

  /** `split('/').next()`: the text before the first slash (all of it when there is none). */
  function FirstField(t: string): (r: string)
    ensures |r| <= |t| && r == t[..|r|]
    ensures forall k :: 0 <= k < |r| ==> r[k] != '/'
    ensures |r| < |t| ==> t[|r|] == '/'
  {
    if t == [] || t[0] == '/' then [] else [t[0]] + FirstField(t[1..])
  }

  /** The number a face token starts with. */
  function FieldNumber(t: string): Option<nat>
  {
    ParseUsize(FirstField(t))
  }

  /** A face number that parsed and is at least 1, so that `x - 1` does not underflow. */
  predicate Usable(n: Option<nat>)
  {
    n.Some? && n.value >= 1
  }

  /** The numbers the given tokens start with, one per token. */
  function FieldNumbers(ts: seq<string>): seq<Option<nat>>
  {
    seq(|ts|, k requires 0 <= k < |ts| => FieldNumber(ts[k]))
  }

  datatype FaceError =
    | FaceParseFailed    // "Failed to parse face vertex number"
    | IndexUnderflow     // `x - 1` on index 0 panics

  /**
   * The `map(..).collect()` of src/model.rs:34-45 over the tokens' numbers: each number
   * minus one, stopping at the first number that fails.
   */
  function FaceFields(ns: seq<Option<nat>>): Result<seq<nat>, FaceError>
  {
    if ns == [] then Ok([])
    else match ns[0]
      case None => Err(FaceParseFailed)
      case Some(v) =>
        if v == 0 then Err(IndexUnderflow)
        else match FaceFields(ns[1..])
          case Err(e) => Err(e)
          case Ok(rest) => Ok([v - 1] + rest)
  }

  /** The fields succeed exactly when every number is usable, and then give each number minus one. */
  lemma {:induction false} FaceFieldsOk(ns: seq<Option<nat>>)
    ensures FaceFields(ns).Ok? <==> forall k :: 0 <= k < |ns| ==> Usable(ns[k])
    ensures FaceFields(ns).Ok? ==> |FaceFields(ns).value| == |ns|
    ensures FaceFields(ns).Ok? ==> forall k :: 0 <= k < |ns| ==> FaceFields(ns).value[k] + 1 == ns[k].value
  {
    if ns != [] {
      var tail := ns[1..];
      FaceFieldsOk(tail);
      assert forall k :: 1 <= k < |ns| ==> ns[k] == tail[k - 1];
      if FaceFields(ns).Ok? {
        var r := FaceFields(ns).value;
        assert r == [ns[0].value - 1] + FaceFields(tail).value;
        assert forall k :: 1 <= k < |ns| ==> r[k] == FaceFields(tail).value[k - 1];
      } else if Usable(ns[0]) {
        assert !FaceFields(tail).Ok?;
      }
    }
  }

  /** The first unusable number decides the error: the fields panic exactly when it is 0. */
  lemma {:induction false} FaceFieldsUnderflow(ns: seq<Option<nat>>)
    ensures FaceFields(ns) == Err(IndexUnderflow) <==>
      exists k :: 0 <= k < |ns| && ns[k] == Some(0) && forall j :: 0 <= j < k ==> Usable(ns[j])
  {
    if ns != [] {
      var tail := ns[1..];
      FaceFieldsUnderflow(tail);
      if FaceFields(ns) == Err(IndexUnderflow) && ns[0] != Some(0) {
        var k :| 0 <= k < |tail| && tail[k] == Some(0) && forall j :: 0 <= j < k ==> Usable(tail[j]);
        assert forall j :: 0 <= j < k + 1 ==> Usable(ns[j]) by {
          forall j | 0 <= j < k + 1 ensures Usable(ns[j]) {
            if j > 0 {
              assert ns[j] == tail[j - 1];
            }
          }
        }
        assert ns[k + 1] == tail[k];
      }
      if exists k :: 0 <= k < |ns| && ns[k] == Some(0) && forall j :: 0 <= j < k ==> Usable(ns[j]) {
        var k :| 0 <= k < |ns| && ns[k] == Some(0) && forall j :: 0 <= j < k ==> Usable(ns[j]);
        if k > 0 {
          assert Usable(ns[0]);
          assert tail[k - 1] == ns[k];
          assert forall j :: 0 <= j < k - 1 ==> Usable(tail[j]) by {
            forall j | 0 <= j < k - 1 ensures Usable(tail[j]) {
              assert tail[j] == ns[j + 1];
            }
          }
        }
      }
    }
  }

  /**
   * `get_face_indicies`: the first three whitespace tokens of the text after `f `, each
   * contributing its number before the first `/`, minus one. Fewer tokens give a shorter
   * list; later tokens are ignored.
   */
  function FaceIndices(line: string): Result<seq<nat>, FaceError>
  {
    FaceFields(FieldNumbers(Take(Tokens(line), 3)))
  }

  /**
   * The face indices are the numbers of the first three tokens, shifted to 0-based; the
   * first token whose number fails or is 0 decides between an error and a panic.
   */
  lemma {:induction false} FaceIndicesMeaning(line: string)
    ensures var ns := FieldNumbers(Take(Tokens(line), 3));
      && |ns| == Min(3, |Tokens(line)|)
      && (forall k :: 0 <= k < |ns| ==> ns[k] == FieldNumber(Tokens(line)[k]))
      && (FaceIndices(line).Ok? <==> forall k :: 0 <= k < |ns| ==> Usable(ns[k]))
      && (FaceIndices(line).Ok? ==> |FaceIndices(line).value| == |ns|)
      && (FaceIndices(line).Ok? ==> forall k :: 0 <= k < |ns| ==> FaceIndices(line).value[k] == ns[k].value - 1)
      && (FaceIndices(line) == Err(IndexUnderflow) <==>
            exists k :: 0 <= k < |ns| && ns[k] == Some(0) && forall j :: 0 <= j < k ==> Usable(ns[j]))
  {
    var ns := FieldNumbers(Take(Tokens(line), 3));
    FaceFieldsOk(ns);
    FaceFieldsUnderflow(ns);
  }

  /** `5/2/1` names vertex 5, which is index 4 once made 0-based. */
  lemma FaceIndicesExample()
    ensures FaceIndices("5/2/1") == Ok([4])
  {
    var t := "5/2/1";
    assert WordLength(t) == 5;
    assert t[..5] == t && t[5..] == [];
    assert Tokens(t) == [t];
    assert t[1..][0] == '/';
    assert FirstField(t) == "5";
    assert "5"[..0] == [];
    assert DigitsValue("5") == 5;
    assert FieldNumbers(Take([t], 3)) == [Some(5)];
    assert [Some(5)][1..] == [];
    assert FaceFields([]) == Ok([]);
    assert [5 - 1] + [] == [4];
    assert FaceFields([Some(5)]) == Ok([4]);
  }

  // ---------------------------------------------------------------- vertices

  /** `map(|x| x.parse()).collect()`: all parsed values, or nothing once one fails. */
  function ParseAll<F>(ts: seq<string>, parse: string -> Option<F>): (r: Option<seq<F>>)
    ensures r.Some? <==> forall k :: 0 <= k < |ts| ==> parse(ts[k]).Some?
    ensures r.Some? ==> |r.value| == |ts| && forall k :: 0 <= k < |ts| ==> parse(ts[k]) == Some(r.value[k])
  {
    if ts == [] then Some([])
    else match parse(ts[0])
      case None => None
      case Some(v) =>
        match ParseAll(ts[1..], parse)
          case None => None
          case Some(rest) => Some([v] + rest)
  }

  datatype VertexError =
    | VertexParseFailed   // "Couldn't parse 3 numbers form line"
    | TooFewNumbers       // `Vec3::from_slice` indexes past a shorter slice and panics

  /**
   * `get_vertices`: the first three whitespace tokens parsed as numbers. A line whose
   * tokens all parse but number fewer than three makes `from_slice` panic.
   */
  function GetVertices<F>(line: string, parse: string -> Option<F>): (r: Result<Vec3<F>, VertexError>)
    ensures var ts := Tokens(line);
      && (r.Ok? <==> |ts| >= 3 && forall k :: 0 <= k < 3 ==> parse(ts[k]).Some?)
      && (r.Ok? ==> Some(r.value.x) == parse(ts[0]) && Some(r.value.y) == parse(ts[1]) && Some(r.value.z) == parse(ts[2]))
      && (r == Err(TooFewNumbers) <==> |ts| < 3 && forall k :: 0 <= k < |ts| ==> parse(ts[k]).Some?)
  {
    match ParseAll(Take(Tokens(line), 3), parse)
      case None => Err(VertexParseFailed)
      case Some(arr) => if |arr| < 3 then Err(TooFewNumbers) else Ok(Vec3FromSlice(arr))
  }

  // ---------------------------------------------------------------- dispatch

  predicate StartsWith(s: string, prefix: string)
  {
    |prefix| <= |s| && s[..|prefix|] == prefix
  }

  /** What one line of the file contributes. */
  datatype Entry<F> =
    | VertexLine(v: Vec3<F>)
    | NormalLine(n: Vec3<F>)
    | FaceLine(f: seq<nat>)
    | Skipped     // an unrecognised prefix, or a line that failed to parse
    | Panics      // a parser panicked, which ends the load

  /** The prefix dispatch of src/model.rs:60-72 applied to one line. */
  function Classify<F>(line: string, parse: string -> Option<F>): Entry<F>
  {
    if StartsWith(line, "v ") then
      match GetVertices(line[2..], parse)
        case Ok(v) => VertexLine(v)
        case Err(e) => if e == TooFewNumbers then Panics else Skipped
    else if StartsWith(line, "vn ") then
      match GetVertices(line[3..], parse)
        case Ok(v) => NormalLine(v)
        case Err(e) => if e == TooFewNumbers then Panics else Skipped
    else if StartsWith(line, "f ") then
      match FaceIndices(line[2..])
        case Ok(f) => FaceLine(f)
        case Err(e) => if e == IndexUnderflow then Panics else Skipped
    else Skipped
  }

  /** A line with none of the three prefixes contributes nothing. */
  lemma {:induction false} OtherLinesSkipped<F>(line: string, parse: string -> Option<F>)
    requires !StartsWith(line, "v ") && !StartsWith(line, "vn ") && !StartsWith(line, "f ")
    ensures Classify(line, parse) == Skipped
  {
  }

  /** A `vn ` line is never taken for a `v ` line. */
  lemma {:induction false} NormalNotVertex(line: string)
    requires StartsWith(line, "vn ")
    ensures !StartsWith(line, "v ") && !StartsWith(line, "f ")
  {
    assert line[1] == 'n';
  }

  /** What each line of the file contributes, line by line. */
  function Entries<F>(lines: seq<string>, parse: string -> Option<F>): seq<Entry<F>>
  {
    seq(|lines|, k requires 0 <= k < |lines| => Classify(lines[k], parse))
  }

  /** The vertices contributed by the entries, in order. */
  function Vertices<F>(es: seq<Entry<F>>): seq<Vec3<F>>
  {
    if es == [] then []
    else
      var e := es[|es| - 1];
      Vertices(es[..|es| - 1]) + (if e.VertexLine? then [e.v] else [])
  }

  /** The normals contributed by the entries, in order. */
  function Normals<F>(es: seq<Entry<F>>): seq<Vec3<F>>
  {
    if es == [] then []
    else
      var e := es[|es| - 1];
      Normals(es[..|es| - 1]) + (if e.NormalLine? then [e.n] else [])
  }

  /** The faces contributed by the entries, in order. */
  function Faces<F>(es: seq<Entry<F>>): seq<seq<nat>>
  {
    if es == [] then []
    else
      var e := es[|es| - 1];
      Faces(es[..|es| - 1]) + (if e.FaceLine? then [e.f] else [])
  }

  predicate PanicFree<F>(es: seq<Entry<F>>)
  {
    forall k :: 0 <= k < |es| ==> !es[k].Panics?
  }

  /** Taking one more entry adds it, if it carries one, to its list. */
  lemma {:induction false} EntriesStep<F>(es: seq<Entry<F>>, i: nat, i': nat)
    requires i < |es| && i' == i + 1
    ensures var e := es[i];
      && Vertices(es[..i']) == Vertices(es[..i]) + (if e.VertexLine? then [e.v] else [])
      && Normals(es[..i']) == Normals(es[..i]) + (if e.NormalLine? then [e.n] else [])
      && Faces(es[..i']) == Faces(es[..i]) + (if e.FaceLine? then [e.f] else [])
      && (PanicFree(es[..i']) <==> PanicFree(es[..i]) && !e.Panics?)
  {
    assert es[..i'][..i] == es[..i];
    assert es[..i'][i] == es[i];
    assert forall k :: 0 <= k < i ==> es[..i'][k] == es[..i][k];
  }

  /** `Model`: the loaded vertex positions, vertex normals and faces (0-based vertex indices). */
  datatype Model<F> = Model(vertices: seq<Vec3<F>>, normals: seq<Vec3<F>>, faces: seq<seq<nat>>)

  /** A panic inside the loader, at the given line (0-based). */
  datatype LoadError = Panicked(line: nat)

  /**
   * `Model::from` after the file is open: every line is dispatched in order and its
   * entry pushed onto its list; lines that fail to parse are dropped. A panicking line
   * ends the load.
   */
  method Load<F>(lines: seq<string>, parse: string -> Option<F>) returns (r: Result<Model<F>, LoadError>)
    ensures var es := Entries(lines, parse);
      && (r.Ok? <==> PanicFree(es))
      && (r.Ok? ==> r.value == Model(Vertices(es), Normals(es), Faces(es)))
      && (r.Err? ==> r.error.line < |lines| && Classify(lines[r.error.line], parse).Panics?)
      && (r.Err? ==> PanicFree(es[..r.error.line]))
  {
    ghost var es := Entries(lines, parse);
    var vertices, normals, faces := [], [], [];
    var i := 0;
    while i < |lines|
      invariant 0 <= i <= |lines|
      invariant PanicFree(es[..i])
      invariant vertices == Vertices(es[..i])
      invariant normals == Normals(es[..i])
      invariant faces == Faces(es[..i])
    {
      EntriesStep(es, i, i + 1);
      match Classify(lines[i], parse) {
        case VertexLine(v) => vertices := vertices + [v];
        case NormalLine(n) => normals := normals + [n];
        case FaceLine(f) => faces := faces + [f];
        case Skipped =>
        case Panics => return Err(Panicked(i));
      }
      i := i + 1;
    }
    assert es[..i] == es;
    return Ok(Model(vertices, normals, faces));
  }

  // ---------------------------------------------------------------- what the lists hold

  /** The three kinds of line the loader keeps. */
  datatype Kind = VertexKind | NormalKind | FaceKind

  predicate HasKind<F>(e: Entry<F>, kind: Kind)
  {
    match kind
    case VertexKind => e.VertexLine?
    case NormalKind => e.NormalLine?
    case FaceKind => e.FaceLine?
  }

  /** The numbers (0-based) of the entries of the given kind, in order. */
  function Positions<F>(es: seq<Entry<F>>, kind: Kind): (r: seq<nat>)
    ensures forall j :: 0 <= j < |r| ==> r[j] < |es|
  {
    if es == [] then []
    else
      var n := |es| - 1;
      Positions(es[..n], kind) + (if HasKind(es[n], kind) then [n] else [])
  }

  /** Positions lists exactly the entries of its kind, each once, in increasing order. */
  lemma {:induction false} PositionsMeaning<F>(es: seq<Entry<F>>, kind: Kind)
    ensures var p := Positions(es, kind);
      && (forall j :: 0 <= j < |p| ==> HasKind(es[p[j]], kind))
      && (forall j, j' :: 0 <= j < j' < |p| ==> p[j] < p[j'])
      && (forall k :: 0 <= k < |es| && HasKind(es[k], kind) ==> k in p)
  {
    if es != [] {
      var n := |es| - 1;
      var front := es[..n];
      PositionsMeaning(front, kind);
      assert forall k :: 0 <= k < n ==> es[k] == front[k];
    }
  }

  /** The i-th vertex is the one read from the i-th vertex entry. */
  lemma {:induction false} VerticesAt<F>(es: seq<Entry<F>>)
    ensures |Vertices(es)| == |Positions(es, VertexKind)|
    ensures forall j :: 0 <= j < |Vertices(es)| ==> es[Positions(es, VertexKind)[j]] == VertexLine(Vertices(es)[j])
  {
    if es != [] {
      var n := |es| - 1;
      var front := es[..n];
      VerticesAt(front);
      assert forall k :: 0 <= k < n ==> es[k] == front[k];
    }
  }

  /** The i-th normal is the one read from the i-th normal entry. */
  lemma {:induction false} NormalsAt<F>(es: seq<Entry<F>>)
    ensures |Normals(es)| == |Positions(es, NormalKind)|
    ensures forall j :: 0 <= j < |Normals(es)| ==> es[Positions(es, NormalKind)[j]] == NormalLine(Normals(es)[j])
  {
    if es != [] {
      var n := |es| - 1;
      var front := es[..n];
      NormalsAt(front);
      assert forall k :: 0 <= k < n ==> es[k] == front[k];
    }
  }

  /** The i-th face is the one read from the i-th face entry. */
  lemma {:induction false} FacesAt<F>(es: seq<Entry<F>>)
    ensures |Faces(es)| == |Positions(es, FaceKind)|
    ensures forall j :: 0 <= j < |Faces(es)| ==> es[Positions(es, FaceKind)[j]] == FaceLine(Faces(es)[j])
  {
    if es != [] {
      var n := |es| - 1;
      var front := es[..n];
      FacesAt(front);
      assert forall k :: 0 <= k < n ==> es[k] == front[k];
    }
  }

  /** Reading two chunks of lines one after the other gives the vertices of each, in order. */
  lemma {:induction false} VerticesAppend<F>(a: seq<Entry<F>>, b: seq<Entry<F>>)
    ensures Vertices(a + b) == Vertices(a) + Vertices(b)
  {
    if b == [] {
      assert a + b == a;
    } else {
      var n := |b| - 1;
      VerticesAppend(a, b[..n]);
      assert (a + b)[..|a + b| - 1] == a + b[..n];
      assert (a + b)[|a + b| - 1] == b[n];
    }
  }

  /** Reading two chunks of lines one after the other gives the normals of each, in order. */
  lemma {:induction false} NormalsAppend<F>(a: seq<Entry<F>>, b: seq<Entry<F>>)
    ensures Normals(a + b) == Normals(a) + Normals(b)
  {
    if b == [] {
      assert a + b == a;
    } else {
      var n := |b| - 1;
      NormalsAppend(a, b[..n]);
      assert (a + b)[..|a + b| - 1] == a + b[..n];
      assert (a + b)[|a + b| - 1] == b[n];
    }
  }

  /** Reading two chunks of lines one after the other gives the faces of each, in order. */
  lemma {:induction false} FacesAppend<F>(a: seq<Entry<F>>, b: seq<Entry<F>>)
    ensures Faces(a + b) == Faces(a) + Faces(b)
  {
    if b == [] {
      assert a + b == a;
    } else {
      var n := |b| - 1;
      FacesAppend(a, b[..n]);
      assert (a + b)[..|a + b| - 1] == a + b[..n];
      assert (a + b)[|a + b| - 1] == b[n];
    }
  }

  /** Lines are classified independently of each other. */
  lemma {:induction false} EntriesConcat<F>(a: seq<string>, b: seq<string>, parse: string -> Option<F>)
    ensures Entries(a + b, parse) == Entries(a, parse) + Entries(b, parse)
  {
    assert forall k :: |a| <= k < |a + b| ==> (a + b)[k] == b[k - |a|];
  }

  /** A skipped entry, wherever it stands, changes neither the lists nor whether the load panics. */
  lemma {:induction false} SkippedEntryIgnored<F>(a: seq<Entry<F>>, b: seq<Entry<F>>)
    ensures Vertices(a + [Skipped] + b) == Vertices(a + b)
    ensures Normals(a + [Skipped] + b) == Normals(a + b)
    ensures Faces(a + [Skipped] + b) == Faces(a + b)
    ensures PanicFree(a + [Skipped] + b) <==> PanicFree(a + b)
  {
    var one: seq<Entry<F>> := [Skipped];
    assert one[..0] == [];
    VerticesAppend(a + one, b);
    VerticesAppend(a, one);
    VerticesAppend(a, b);
    NormalsAppend(a + one, b);
    NormalsAppend(a, one);
    NormalsAppend(a, b);
    FacesAppend(a + one, b);
    FacesAppend(a, one);
    FacesAppend(a, b);
    var s, t := a + one + b, a + b;
    assert forall k :: 0 <= k < |a| ==> s[k] == t[k];
    assert forall k :: |a| <= k < |t| ==> s[k + 1] == t[k];
    assert forall k :: |a| < k < |s| ==> s[k] == t[k - 1];
    assert s[|a|] == Skipped;
  }

  /** A skipped line, wherever it stands, changes neither the lists nor whether the load panics. */
  lemma {:induction false} SkippedLineIgnored<F>(a: seq<string>, line: string, b: seq<string>, parse: string -> Option<F>)
    requires Classify(line, parse) == Skipped
    ensures var with, without := Entries(a + [line] + b, parse), Entries(a + b, parse);
      && Vertices(with) == Vertices(without)
      && Normals(with) == Normals(without)
      && Faces(with) == Faces(without)
      && (PanicFree(with) <==> PanicFree(without))
  {
    EntriesConcat(a + [line], b, parse);
    EntriesConcat(a, [line], parse);
    EntriesConcat(a, b, parse);
    assert Entries([line], parse) == [Skipped];
    SkippedEntryIgnored(Entries(a, parse), Entries(b, parse));
  }

  // ---------------------------------------------------------------- accessors

  function NumVertices<F>(m: Model<F>): nat
  {
    |m.vertices|
  }

  function NumFaces<F>(m: Model<F>): nat
  {
    |m.faces|
  }

  /** `vertex(i)`: indexing past the end panics. */
  function Vertex<F>(m: Model<F>, i: nat): Vec3<F>
    requires i < |m.vertices|
  {
    m.vertices[i]
  }

  /** `normal(i)`: indexing past the end panics. */
  function Normal<F>(m: Model<F>, i: nat): Vec3<F>
    requires i < |m.normals|
  {
    m.normals[i]
  }

  /** `face(i)`: indexing past the end panics. */
  function Face<F>(m: Model<F>, i: nat): seq<nat>
    requires i < |m.faces|
  {
    m.faces[i]
  }

  /**
   * After a load, `num_vertices` and `num_faces` count the accepted `v ` and `f ` lines,
   * and `vertex(i)`, `normal(i)` and `face(i)` return what the i-th such line holds.
   */
  lemma {:induction false} LoadedAccessors<F>(lines: seq<string>, parse: string -> Option<F>, m: Model<F>)
    requires var es := Entries(lines, parse); m == Model(Vertices(es), Normals(es), Faces(es))
    ensures var es := Entries(lines, parse);
      && NumVertices(m) == |Positions(es, VertexKind)|
      && NumFaces(m) == |Positions(es, FaceKind)|
      && |m.normals| == |Positions(es, NormalKind)|
    ensures var es := Entries(lines, parse);
      forall i :: 0 <= i < NumVertices(m) ==> Classify(lines[Positions(es, VertexKind)[i]], parse) == VertexLine(Vertex(m, i))
    ensures var es := Entries(lines, parse);
      forall i :: 0 <= i < |m.normals| ==> Classify(lines[Positions(es, NormalKind)[i]], parse) == NormalLine(Normal(m, i))
    ensures var es := Entries(lines, parse);
      forall i :: 0 <= i < NumFaces(m) ==> Classify(lines[Positions(es, FaceKind)[i]], parse) == FaceLine(Face(m, i))
  {
    var es := Entries(lines, parse);
    VerticesAt(es);
    NormalsAt(es);
    FacesAt(es);
  }
}
