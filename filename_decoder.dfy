/** Decoding of catalogue file names of the form `name_author_publisher_genre.ext`,
    exactly as the importers do it: `split("_")`, parts 0 to 2 taken verbatim, part 3
    with every occurrence of each listed extension removed, in list order. */
module FilenameDecoder {
  import opened Wrappers
  import opened JavaText

  /** The four catalogue fields a file name carries. */
  datatype Fields = Fields(name: string, author: string, publisher: string, genre: string)

  /** Extensions the full-refresh importers strip from book and literary-work names. */
  const BookExtensions: seq<string> := [".pdf", ".doc", ".docx"]
  /** Extensions the full-refresh audio importer strips. */
  const AudioExtensions: seq<string> := [".mp3", ".wav", ".flac"]
  /** The only extension the incremental importer strips. */
  const ImportExtensions: seq<string> := [".pdf"]

  predicate ValidExtensions(exts: seq<string>) {
    forall i :: 0 <= i < |exts| ==> exts[i] != ""
  }

  /** The chain `part.replace(exts[0], "").replace(exts[1], "")...`. */
  function StripExtensions(part: string, exts: seq<string>): (r: string)
    requires ValidExtensions(exts)
    ensures |r| <= |part|
    decreases |exts|
  {
    if exts == [] then part else StripExtensions(RemoveAll(part, exts[0]), exts[1..])
  }

  /** The decoded fields, or `None` when `split("_")` yields fewer than four parts. */
  function Decode(fileName: string, exts: seq<string>): (r: Option<Fields>)
    requires ValidExtensions(exts)
    ensures r.Some? <==> |Split(fileName, '_')| >= 4
    ensures r.Some? ==> '_' in fileName
    ensures r.Some? ==> '_' !in r.value.name && '_' !in r.value.author && '_' !in r.value.publisher
  {
    var parts := Split(fileName, '_');
    if |parts| < 4 then None
    else Some(Fields(parts[0], parts[1], parts[2], StripExtensions(parts[3], exts)))
  }

  /** The name a file with these fields and extension would have. */
  function Encode(name: string, author: string, publisher: string, genre: string, ext: string): string {
    name + "_" + author + "_" + publisher + "_" + genre + ext
  }

  predicate PlainField(s: string) {
    '_' !in s
  }

  /** Decoding an encoded name gives the first three fields verbatim and the genre
      with the extension chain applied. */
  lemma {:induction false} DecodeEncoded(n: string, a: string, p: string, g: string, ext: string, exts: seq<string>)
    requires ValidExtensions(exts)
    requires PlainField(n) && PlainField(a) && PlainField(p) && PlainField(g + ext)
    requires g + ext != ""
    ensures Decode(Encode(n, a, p, g, ext), exts) == Some(Fields(n, a, p, StripExtensions(g + ext, exts)))
  {
    SplitFour(n, a, p, g + ext, '_');
    assert Encode(n, a, p, g, ext) == n + ['_'] + a + ['_'] + p + ['_'] + (g + ext);
  }

  /** The extension chain of three extensions, unfolded. */
  lemma StripThree(part: string, exts: seq<string>)
    requires |exts| == 3 && ValidExtensions(exts)
    ensures StripExtensions(part, exts)
         == RemoveAll(RemoveAll(RemoveAll(part, exts[0]), exts[1]), exts[2])
  {
    var r0 := RemoveAll(part, exts[0]);
    var r1 := RemoveAll(r0, exts[1]);
    var r2 := RemoveAll(r1, exts[2]);
    var e1 := exts[1..];
    var e2 := e1[1..];
    assert e1[0] == exts[1] && e2[0] == exts[2] && e2[1..] == [];
    assert StripExtensions(r1, e2) == StripExtensions(r2, []);
    assert StripExtensions(r0, e1) == StripExtensions(r1, e2);
  }

  /** Where no dot occurs in `g`, an extension `x + rest` loses its `x`. */
  lemma RemoveMatching(g: string, x: string, rest: string)
    requires '.' !in g && '.' !in rest
    requires |x| > 0 && x[0] == '.' && '.' !in x[1..]
    ensures RemoveAll(g + (x + rest), x) == g + rest
  {
    RemoveAllSkipsPlain(g, x + rest, x);
    RemoveAllAtTarget(rest, x);
    RemoveAllPlain(rest, x);
  }

  /** Where no dot occurs in `g` nor after the first character of `e`, an extension
      `x` that is not a prefix of `e` leaves `g + e` unchanged. */
  lemma RemoveNonMatching(g: string, e: string, x: string)
    requires '.' !in g && |e| > 0 && e[0] == '.' && '.' !in e[1..]
    requires |x| > 0 && x[0] == '.'
    requires !(x <= e)
    ensures RemoveAll(g + e, x) == g + e
  {
    RemoveAllSkipsPlain(g, e, x);
    if |e| >= |x| {
      assert e[..|x|] != x;
      assert e == [e[0]] + e[1..];
      RemoveAllPlain(e[1..], x);
    }
  }

  /** Genres of `.pdf` book files lose the extension. */
  lemma BookGenrePdf(g: string)
    requires '.' !in g
    ensures StripExtensions(g + ".pdf", BookExtensions) == g
  {
    StripThree(g + ".pdf", BookExtensions);
    RemoveMatching(g, ".pdf", "");
    assert g + (".pdf" + "") == g + ".pdf" && g + "" == g;
    RemoveAllPlain(g, ".doc");
    RemoveAllPlain(g, ".docx");
  }

  /** Genres of `.doc` book files lose the extension. */
  lemma BookGenreDoc(g: string)
    requires '.' !in g
    ensures StripExtensions(g + ".doc", BookExtensions) == g
  {
    StripThree(g + ".doc", BookExtensions);
    assert ".pdf"[1] != ".doc"[1];
    RemoveNonMatching(g, ".doc", ".pdf");
    RemoveMatching(g, ".doc", "");
    assert g + (".doc" + "") == g + ".doc" && g + "" == g;
    RemoveAllPlain(g, ".docx");
  }

  /** Genres of `.docx` book files keep a trailing `x`: `.doc` is removed before
      `.docx` is looked for. */
  lemma BookGenreDocx(g: string)
    requires '.' !in g
    ensures StripExtensions(g + ".docx", BookExtensions) == g + "x"
  {
    StripThree(g + ".docx", BookExtensions);
    assert ".pdf"[1] != ".docx"[1];
    RemoveNonMatching(g, ".docx", ".pdf");
    assert ".docx" == ".doc" + "x";
    RemoveMatching(g, ".doc", "x");
    RemoveAllPlain(g + "x", ".docx");
  }

  /** Genres of `.mp3` audio files lose the extension. */
  lemma AudioGenreMp3(g: string)
    requires '.' !in g
    ensures StripExtensions(g + ".mp3", AudioExtensions) == g
  {
    StripThree(g + ".mp3", AudioExtensions);
    RemoveMatching(g, ".mp3", "");
    assert g + (".mp3" + "") == g + ".mp3" && g + "" == g;
    RemoveAllPlain(g, ".wav");
    RemoveAllPlain(g, ".flac");
  }

  /** Genres of `.wav` audio files lose the extension. */
  lemma AudioGenreWav(g: string)
    requires '.' !in g
    ensures StripExtensions(g + ".wav", AudioExtensions) == g
  {
    StripThree(g + ".wav", AudioExtensions);
    assert ".mp3"[1] != ".wav"[1];
    RemoveNonMatching(g, ".wav", ".mp3");
    RemoveMatching(g, ".wav", "");
    assert g + (".wav" + "") == g + ".wav" && g + "" == g;
    RemoveAllPlain(g, ".flac");
  }

  /** Genres of `.flac` audio files lose the extension. */
  lemma AudioGenreFlac(g: string)
    requires '.' !in g
    ensures StripExtensions(g + ".flac", AudioExtensions) == g
  {
    StripThree(g + ".flac", AudioExtensions);
    assert ".mp3"[1] != ".flac"[1];
    RemoveNonMatching(g, ".flac", ".mp3");
    assert ".wav"[1] != ".flac"[1];
    RemoveNonMatching(g, ".flac", ".wav");
    RemoveMatching(g, ".flac", "");
    assert g + (".flac" + "") == g + ".flac" && g + "" == g;
  }

  /** The incremental importer strips `.pdf` only: any other extension stays in the genre. */
  lemma ImportGenre(g: string, e: string)
    requires '.' !in g && |e| > 0 && e[0] == '.' && '.' !in e[1..]
    ensures StripExtensions(g + ".pdf", ImportExtensions) == g
    ensures !(".pdf" <= e) ==> StripExtensions(g + e, ImportExtensions) == g + e
  {
    RemoveMatching(g, ".pdf", "");
    assert g + (".pdf" + "") == g + ".pdf" && g + "" == g;
    assert StripExtensions(g, []) == g;
    if !(".pdf" <= e) {
      RemoveNonMatching(g, e, ".pdf");
      assert StripExtensions(g + e, []) == g + e;
    }
  }

  /** Parts after the fourth are ignored. */
  lemma {:induction false} ExtraPartsIgnored(n: string, a: string, p: string, g: string, rest: string, exts: seq<string>)
    requires ValidExtensions(exts)
    requires PlainField(n) && PlainField(a) && PlainField(p) && PlainField(g) && g != ""
    ensures Decode(n + "_" + a + "_" + p + "_" + g + "_" + rest, exts)
         == Some(Fields(n, a, p, StripExtensions(g, exts)))
  {
    var s := n + "_" + a + "_" + p + "_" + g + "_" + rest;
    var t3 := g + "_" + rest;
    var t2 := p + "_" + t3;
    var t1 := a + "_" + t2;
    assert s == n + "_" + t1;
    PiecesAfterPlain(g, '_', rest);
    PiecesAfterPlain(p, '_', t3);
    PiecesAfterPlain(a, '_', t2);
    PiecesAfterPlain(n, '_', t1);
    var pieces := Pieces(s, '_');
    assert pieces == [n, a, p, g] + Pieces(rest, '_');
    assert s[|n|] == '_';
    var parts := Split(s, '_');
    assert parts <= pieces;
    assert pieces[3] != "";
    assert parts[..4] == [n, a, p, g];
  }

  /** A name with only two underscore-separated fields is rejected, whatever the
      extension list. */
  lemma TwoFieldsRejected(n: string, rest: string, exts: seq<string>)
    requires ValidExtensions(exts)
    requires PlainField(n) && PlainField(rest)
    ensures Decode(n + "_" + rest, exts) == None
  {
    PiecesOfPlain(rest, '_');
    PiecesAfterPlain(n, '_', rest);
    assert (n + "_" + rest)[|n|] == '_';
  }

  /** A name with three fields is rejected too: four are needed. */
  lemma ThreeFieldsRejected(n: string, a: string, rest: string, exts: seq<string>)
    requires ValidExtensions(exts)
    requires PlainField(n) && PlainField(a) && PlainField(rest)
    ensures Decode(n + "_" + a + "_" + rest, exts) == None
  {
    var t := a + "_" + rest;
    assert n + "_" + a + "_" + rest == n + "_" + t;
    PiecesOfPlain(rest, '_');
    PiecesAfterPlain(a, '_', rest);
    PiecesAfterPlain(n, '_', t);
    assert (n + "_" + t)[|n|] == '_';
  }
}
