/** Common names from the vernacular-name files of the iNaturalist archive
    (inat_taxonomy.py `beautify_common_name` and `annotate_common_names`):
    cleaning up a name, choosing the files of the user's language, and
    attaching the names to the taxa of the tree. */
module CommonNames {
  import opened Wrappers
  import opened Text
  import opened TaxonTree

  const Paraphyletic: string := " [paraphyletic]"

  /** The characters Python's `str.split()` splits at. */
  predicate IsSpace(c: char)
  {
    var n := c as int;
    || (9 <= n <= 13) || (28 <= n <= 32) || n == 0x85 || n == 0xA0 || n == 0x1680
    || (0x2000 <= n <= 0x200A) || n == 0x2028 || n == 0x2029 || n == 0x202F
    || n == 0x205F || n == 0x3000
  }

  predicate NoSpace(w: string)
  {
    forall i :: 0 <= i < |w| ==> !IsSpace(w[i])
  }

  /** A word of `str.split()`: not empty, no whitespace. */
  predicate IsWord(w: string)
  {
    0 < |w| && NoSpace(w)
  }

  /** ASCII upper-casing of one character. */
  function Upper(c: char): (u: char)
    ensures 'a' <= c <= 'z' ==> 'A' <= u <= 'Z' && u as int == c as int - 32
    ensures !('a' <= c <= 'z') ==> u == c
  {
    if 'a' <= c <= 'z' then (c as int - 32) as char else c
  }

  /** `word[0].upper() + word[1:]`. */
  function Capitalize(w: string): (r: string)
    requires 0 < |w|
    ensures |r| == |w| && r[0] == Upper(w[0]) && r[1..] == w[1..]
  {
    [Upper(w[0])] + w[1..]
  }

  /** The rule for a whitespace-separated word: "and" and abbreviations
      ending in '.' stay as they are, every other word is capitalized. */
  function CapitalizeWord(w: string): (r: string)
    requires 0 < |w|
    ensures (w == "and" || w[|w| - 1] == '.') ==> r == w
    ensures !(w == "and" || w[|w| - 1] == '.') ==> r == Capitalize(w)
  {
    if w == "and" || w[|w| - 1] == '.' then w else Capitalize(w)
  }

  function EndsWith(s: string, suffix: string): bool
  {
    |suffix| <= |s| && s[|s| - |suffix|..] == suffix
  }

  function StartsWith(s: string, prefix: string): bool
  {
    |prefix| <= |s| && s[..|prefix|] == prefix
  }

  /** The length of the word `s` starts with. */
  function WordLen(s: string): (k: nat)
    requires 0 < |s| && !IsSpace(s[0])
    ensures 0 < k <= |s| && NoSpace(s[..k]) && (k < |s| ==> IsSpace(s[k]))
    decreases |s|
  {
    if |s| == 1 || IsSpace(s[1]) then 1 else 1 + WordLen(s[1..])
  }

  /** Python's `s.split()`: the maximal runs of non-whitespace. */
  function Words(s: string): (ws: seq<string>)
    ensures forall i :: 0 <= i < |ws| ==> IsWord(ws[i])
    decreases |s|
  {
    if |s| == 0 then []
    else if IsSpace(s[0]) then Words(s[1..])
    else
      var k := WordLen(s);
      [s[..k]] + Words(s[k..])
  }

  /** Python's `' '.join(words)`, also for no words. */
  function JoinWords(ws: seq<string>): string
  {
    if |ws| == 0 then "" else Join(ws, ' ')
  }

  /** Capitalize every `-`-separated part, or `None` for the IndexError of an
      empty part. */
  function CapitalizeParts(parts: seq<string>): (r: Option<seq<string>>)
    ensures r.Some? <==> forall i :: 0 <= i < |parts| ==> 0 < |parts[i]|
    ensures r.Some? ==> |r.value| == |parts| && forall i :: 0 <= i < |parts| ==> r.value[i] == Capitalize(parts[i])
    decreases |parts|
  {
    if |parts| == 0 then Some([])
    else if |parts[0]| == 0 then None
    else
      match CapitalizeParts(parts[1..])
      case None => None
      case Some(rest) => Some([Capitalize(parts[0])] + rest)
  }

  function CapitalizeWords(ws: seq<string>): (r: seq<string>)
    requires forall i :: 0 <= i < |ws| ==> 0 < |ws[i]|
    ensures |r| == |ws| && forall i :: 0 <= i < |ws| ==> r[i] == CapitalizeWord(ws[i])
  {
    seq(|ws|, i requires 0 <= i < |ws| => CapitalizeWord(ws[i]))
  }

  /** The name without one trailing " [paraphyletic]". */
  function DropParaphyletic(name: string): (r: string)
    ensures EndsWith(name, Paraphyletic) ==> r + Paraphyletic == name
    ensures !EndsWith(name, Paraphyletic) ==> r == name
  {
    if EndsWith(name, Paraphyletic) then name[..|name| - |Paraphyletic|] else name
  }

  /** The name with the first character of each `-`-separated part
      capitalized; `None` when a part is empty (the empty name, or a name
      with a leading, trailing or doubled '-'). */
  function Hyphenated(name: string): Option<string>
  {
    match CapitalizeParts(Split(name, '-'))
    case None => None
    case Some(parts) => Some(Join(parts, '-'))
  }

  /** `beautify_common_name`; `None` is the IndexError it raises. */
  function Beautify(name: string): (r: Option<string>)
  {
    match Hyphenated(DropParaphyletic(name))
    case None => None
    case Some(h) => Some(JoinWords(CapitalizeWords(Words(h))))
  }

  /** No whitespace at either end, and every whitespace character is a
      single ' ' between two words. */
  ghost predicate SingleSpaced(s: string)
  {
    forall i :: 0 <= i < |s| && IsSpace(s[i]) ==> s[i] == ' ' && 0 < i && i + 1 < |s| && !IsSpace(s[i + 1])
  }

  lemma {:induction false} WordLenOfWord(w: string, rest: string)
    requires IsWord(w) && (|rest| == 0 || IsSpace(rest[0]))
    ensures WordLen(w + rest) == |w|
    decreases |w|
  {
    var s := w + rest;
    assert s[0] == w[0];
    if |w| > 1 {
      assert s[1] == w[1] && s[1..] == w[1..] + rest;
      WordLenOfWord(w[1..], rest);
    } else {
      assert |s| == 1 || s[1] == rest[0];
    }
  }

  /** A word followed by whitespace (or nothing) is the first word. */
  lemma WordsAfterWord(w: string, rest: string)
    requires IsWord(w) && (|rest| == 0 || IsSpace(rest[0]))
    ensures Words(w + rest) == [w] + Words(rest)
  {
    var s := w + rest;
    WordLenOfWord(w, rest);
    assert s[..|w|] == w && s[|w|..] == rest;
  }

  /** Splitting words joined by single spaces gives the words back. */
  lemma {:induction false} WordsOfJoin(ws: seq<string>)
    requires forall i :: 0 <= i < |ws| ==> IsWord(ws[i])
    ensures Words(JoinWords(ws)) == ws
    decreases |ws|
  {
    if |ws| == 1 {
      WordsAfterWord(ws[0], "");
      assert ws[0] + "" == ws[0];
    } else if |ws| > 1 {
      var r := Join(ws[1..], ' ');
      WordsOfJoin(ws[1..]);
      WordsAfterWord(ws[0], [' '] + r);
      assert ws[0] + [' '] + r == ws[0] + ([' '] + r);
      assert ([' '] + r)[1..] == r;
      assert [ws[0]] + ws[1..] == ws;
    }
  }

  /** Words joined by single spaces are single-spaced. */
  lemma {:induction false} JoinSingleSpaced(ws: seq<string>)
    requires 0 < |ws| && forall i :: 0 <= i < |ws| ==> IsWord(ws[i])
    ensures SingleSpaced(Join(ws, ' ')) && 0 < |Join(ws, ' ')| && !IsSpace(Join(ws, ' ')[0])
    decreases |ws|
  {
    if |ws| > 1 {
      var w := ws[0];
      var r := Join(ws[1..], ' ');
      JoinSingleSpaced(ws[1..]);
      var s := w + [' '] + r;
      assert s == Join(ws, ' ');
      assert forall i :: 0 <= i < |w| ==> s[i] == w[i];
      forall i | 0 <= i < |s| && IsSpace(s[i])
        ensures s[i] == ' ' && 0 < i && i + 1 < |s| && !IsSpace(s[i + 1])
      {
        if i > |w| {
          assert s[i] == r[i - |w| - 1] && (i + 1 < |s| ==> s[i + 1] == r[i - |w|]);
        } else {
          assert s[i + 1] == r[0];
        }
      }
      assert s[0] == w[0];
    }
  }

  lemma UpperKeepsHyphen(c: char)
    ensures (Upper(c) == '-') <==> (c == '-')
  {
  }

  /** The `-`-separated parts of the hyphen-capitalized name are the
      capitalized parts of the name. */
  lemma HyphenatedParts(name: string)
    requires Hyphenated(name).Some?
    ensures var parts := Split(name, '-');
            var h := Split(Hyphenated(name).value, '-');
            |h| == |parts| && forall i :: 0 <= i < |parts| ==> h[i] == Capitalize(parts[i])
  {
    var parts := Split(name, '-');
    var caps := CapitalizeParts(parts).value;
    SplitPartsAvoidSeparator(name, '-');
    forall k | 0 <= k < |caps|
      ensures '-' !in caps[k]
    {
      assert '-' !in parts[k];
      UpperKeepsHyphen(parts[k][0]);
      assert caps[k] == [Upper(parts[k][0])] + parts[k][1..];
    }
    SplitJoin(caps, '-');
  }

  /** Some `-`-separated part of the name is empty. */
  predicate HasEmptyPart(s: string)
  {
    exists i :: 0 <= i < |Split(s, '-')| && Split(s, '-')[i] == ""
  }

  /** `beautify_common_name` fails exactly on an empty `-`-separated part
      of the name (after dropping " [paraphyletic]"). */
  lemma BeautifyFails(name: string)
    ensures Beautify(name).None? <==> HasEmptyPart(DropParaphyletic(name))
  {
    var parts := Split(DropParaphyletic(name), '-');
    assert Beautify(name).Some? <==> CapitalizeParts(parts).Some?;
    assert CapitalizeParts(parts).Some? <==> forall i :: 0 <= i < |parts| ==> 0 < |parts[i]|;
  }

  /** A result of `beautify_common_name` is single-spaced and its words are
      those of the hyphen-capitalized name, each capitalized unless it is
      "and" or ends in '.'. */
  lemma BeautifyWords(name: string)
    ensures Beautify(name).Some? ==>
              var r := Beautify(name).value;
              var h := Hyphenated(DropParaphyletic(name)).value;
              && SingleSpaced(r)
              && |Words(r)| == |Words(h)|
              && forall i :: 0 <= i < |Words(h)| ==> Words(r)[i] == CapitalizeWord(Words(h)[i])
  {
    var stripped := DropParaphyletic(name);
    if Hyphenated(stripped).Some? {
      var h := Hyphenated(stripped).value;
      var ws := CapitalizeWords(Words(h));
      forall i | 0 <= i < |ws|
        ensures IsWord(ws[i])
      {
        var w := Words(h)[i];
        assert IsWord(w);
        if !(w == "and" || w[|w| - 1] == '.') {
          assert ws[i] == [Upper(w[0])] + w[1..];
          assert forall j :: 1 <= j < |w| ==> ws[i][j] == w[j];
        }
      }
      WordsOfJoin(ws);
      if |ws| > 0 {
        JoinSingleSpaced(ws);
      }
    }
  }

  // ---------------------------------------------------------------------
  // Choosing the vernacular-name files

  const NamesFilePrefix: string := "VernacularNames-"
  const NamesFileSuffix: string := ".csv"

  /** One member of the archive: its name, the `language` column of its
      first row (`None` for a file without rows), and its rows. */
  datatype NamesFile = NamesFile(fname: string, language: Option<string>, rows: seq<NameRow>)

  /** One row of a vernacular-name file: the `id` column and the
      `vernacularName` column. */
  datatype NameRow = NameRow(idField: string, vernacularName: string)

  /** The locale's language, with the C and POSIX locales read as English. */
  function UserLanguage(locale: string): (r: string)
    ensures locale in ["C", "C.UTF-8", "POSIX"] ==> r == "en"
    ensures locale !in ["C", "C.UTF-8", "POSIX"] ==> r == locale
  {
    if locale in ["C", "C.UTF-8", "POSIX"] then "en" else locale
  }

  predicate IsNamesFile(fname: string)
  {
    StartsWith(fname, NamesFilePrefix) && EndsWith(fname, NamesFileSuffix)
  }

  /** The file's language is the user's language ("en" vs "en"). */
  predicate PerfectMatch(f: NamesFile, language: string)
  {
    IsNamesFile(f.fname) && f.language == Some(language)
  }

  /** The file's language is a proper prefix of the user's ("en" vs "en_US"). */
  predicate PrefixMatch(f: NamesFile, language: string)
  {
    && IsNamesFile(f.fname) && f.language.Some?
    && |f.language.value| < |language| && f.language.value == language[..|f.language.value|]
  }

  function PerfectMatches(files: seq<NamesFile>, language: string): (r: seq<NamesFile>)
    ensures forall f :: f in r <==> f in files && PerfectMatch(f, language)
    decreases |files|
  {
    if |files| == 0 then []
    else (if PerfectMatch(files[0], language) then [files[0]] else []) + PerfectMatches(files[1..], language)
  }

  function PrefixMatches(files: seq<NamesFile>, language: string): (r: seq<NamesFile>)
    ensures forall f :: f in r <==> f in files && PrefixMatch(f, language)
    decreases |files|
  {
    if |files| == 0 then []
    else (if PrefixMatch(files[0], language) then [files[0]] else []) + PrefixMatches(files[1..], language)
  }

  /** The files read for common names: the perfect matches, then the prefix
      matches, each group in archive order. */
  function ChosenFiles(files: seq<NamesFile>, language: string): seq<NamesFile>
  {
    PerfectMatches(files, language) + PrefixMatches(files, language)
  }

  /** A file is read exactly when it is a vernacular-name file whose language
      matches, and every perfect match is read before every prefix match. */
  lemma ChosenFilesMatch(files: seq<NamesFile>, language: string)
    ensures var chosen := ChosenFiles(files, language);
            forall f :: f in chosen <==> f in files && (PerfectMatch(f, language) || PrefixMatch(f, language))
    ensures var chosen := ChosenFiles(files, language);
            forall i, j :: 0 <= i < |chosen| && 0 <= j < |chosen| && PerfectMatch(chosen[j], language) && PrefixMatch(chosen[i], language)
              ==> j < i
  {
    var chosen := ChosenFiles(files, language);
    var p := PerfectMatches(files, language);
    assert forall i :: 0 <= i < |p| ==> chosen[i] == p[i];
    forall i, j | 0 <= i < |chosen| && 0 <= j < |chosen| && PerfectMatch(chosen[j], language) && PrefixMatch(chosen[i], language)
      ensures j < i
    {
      var x, y := chosen[i], chosen[j];
      assert x in p || x in PrefixMatches(files, language);
      assert y in p || y in PrefixMatches(files, language);
    }
  }

  /** All the rows of the files, file after file. */
  function AllRows(files: seq<NamesFile>): seq<NameRow>
    decreases |files|
  {
    if |files| == 0 then [] else files[0].rows + AllRows(files[1..])
  }

  // ---------------------------------------------------------------------
  // Annotating the tree

  const NameSeparator: string := "; "

  /** The state after some rows: the nodes, and whether an exception ended
      the annotation early (what was attached before it stays attached). */
  datatype Annotated = Annotated(nodes: map<int, Node>, complete: bool)

  /** One row: a taxon of the tree gets the beautified name if it has no
      common name yet, or in `all` mode also appended after "; ". A row whose
      id is not an integer, or whose name `beautify_common_name` rejects,
      raises and ends the annotation. */
  function AnnotateRows(nodes: map<int, Node>, rows: seq<NameRow>, all: bool): (r: Annotated)
    ensures r.nodes.Keys == nodes.Keys
    ensures forall k :: k in nodes ==> r.nodes[k] == nodes[k].(commonName := r.nodes[k].commonName)
    decreases |rows|
  {
    if |rows| == 0 then Annotated(nodes, true)
    else
      match ParseInt(rows[0].idField)
      case None => Annotated(nodes, false)
      case Some(id) =>
        if id in nodes && (all || nodes[id].commonName.None?) then
          match Beautify(rows[0].vernacularName)
          case None => Annotated(nodes, false)
          case Some(c) =>
            var name := if nodes[id].commonName.None? then c else nodes[id].commonName.value + NameSeparator + c;
            AnnotateRows(nodes[id := nodes[id].(commonName := Some(name))], rows[1..], all)
        else AnnotateRows(nodes, rows[1..], all)
  }

  /** `annotate_common_names`, given the archive's members and the user's
      language: without a matching file the tree is left alone. */
  function AnnotateCommonNames(nodes: map<int, Node>, files: seq<NamesFile>, language: string, all: bool): (r: Annotated)
    ensures |ChosenFiles(files, language)| == 0 ==> r == Annotated(nodes, true)
  {
    var chosen := ChosenFiles(files, language);
    if |chosen| == 0 then Annotated(nodes, true)
    else AnnotateRows(nodes, AllRows(chosen), all)
  }

  /** Attaching common names changes nothing but common names, so the tree
      stays a valid tree. */
  lemma AnnotateKeepsValid(t: Taxonomy, files: seq<NamesFile>, language: string, all: bool)
    requires Valid(t)
    ensures Valid(Taxonomy(AnnotateCommonNames(t.nodes, files, language, all).nodes, t.order))
  {
    var r := AnnotateCommonNames(t.nodes, files, language, all).nodes;
    if |ChosenFiles(files, language)| > 0 {
      SameShapeKeepsValid(t, Taxonomy(r, t.order));
    }
  }

  /** The vernacular names the rows give for taxon `k`, in row order. */
  function NamesOf(rows: seq<NameRow>, k: int): (r: seq<string>)
    decreases |rows|
  {
    if |rows| == 0 then []
    else (if ParseInt(rows[0].idField) == Some(k) then [rows[0].vernacularName] else []) + NamesOf(rows[1..], k)
  }

  /** In the default mode the first name wins: a taxon that already had a
      common name keeps it, and one without gets the beautified first name
      the rows give for it, if any. */
  lemma {:induction false} AnnotateFirstWins(nodes: map<int, Node>, rows: seq<NameRow>, k: int)
    requires k in nodes
    ensures var r := AnnotateRows(nodes, rows, false);
            && (nodes[k].commonName.Some? ==> r.nodes[k] == nodes[k])
            && (nodes[k].commonName.None? && NamesOf(rows, k) == [] ==> r.nodes[k].commonName.None?)
            && (r.complete && nodes[k].commonName.None? && NamesOf(rows, k) != [] ==>
                  r.nodes[k].commonName == Beautify(NamesOf(rows, k)[0]))
    decreases |rows|
  {
    if |rows| > 0 {
      match ParseInt(rows[0].idField)
      case None =>
      case Some(id) =>
        if id in nodes && nodes[id].commonName.None? {
          match Beautify(rows[0].vernacularName)
          case None =>
          case Some(c) =>
            var nodes1 := nodes[id := nodes[id].(commonName := Some(c))];
            AnnotateFirstWins(nodes1, rows[1..], k);
        } else {
          AnnotateFirstWins(nodes, rows[1..], k);
        }
    }
  }

  /** The common-name field for the names collected so far: `"; ".join`
      of them, or None for none. */
  function JoinedOrNone(names: seq<string>): Option<string>
  {
    if |names| == 0 then None else Some(JoinWith(names, NameSeparator))
  }

  /** Every name is one that `beautify_common_name` accepts. */
  predicate AllBeautify(names: seq<string>)
    decreases |names|
  {
    |names| == 0 || (Beautify(names[0]).Some? && AllBeautify(names[1..]))
  }

  /** The beautified forms of names that `beautify_common_name` accepts. */
  function BeautifyAll(names: seq<string>): (r: seq<string>)
    requires AllBeautify(names)
    ensures |r| == |names| && forall i :: 0 <= i < |names| ==> Some(r[i]) == Beautify(names[i])
    decreases |names|
  {
    if |names| == 0 then [] else [Beautify(names[0]).value] + BeautifyAll(names[1..])
  }

  lemma JoinedOrNoneAppend(names: seq<string>, c: string)
    ensures JoinedOrNone(names + [c])
         == Some(if names == [] then c else JoinWith(names, NameSeparator) + NameSeparator + c)
  {
    if names != [] {
      JoinWithSnoc(names, c, NameSeparator);
    }
  }

  lemma BeautifyAllHead(name: string, c: string, tail: seq<string>)
    requires Beautify(name) == Some(c) && AllBeautify(tail)
    ensures AllBeautify([name] + tail) && BeautifyAll([name] + tail) == [c] + BeautifyAll(tail)
  {
    var names := [name] + tail;
    assert names[0] == name && names[1..] == tail;
  }

  lemma BeautifyAllCons(name: string, c: string, tail: seq<string>, before: seq<string>)
    requires Beautify(name) == Some(c) && AllBeautify(tail)
    ensures AllBeautify([name] + tail)
    ensures before + BeautifyAll([name] + tail) == before + [c] + BeautifyAll(tail)
  {
    BeautifyAllHead(name, c, tail);
    AppendAssoc(before, c, BeautifyAll(tail));
  }

  lemma AppendAssoc(before: seq<string>, c: string, rest: seq<string>)
    ensures before + ([c] + rest) == before + [c] + rest
  {
  }

  /** In `all` mode a taxon collects every name the rows give for it, after
      the names it already had, joined by "; ". */
  lemma {:induction false} AnnotateAllNames(nodes: map<int, Node>, rows: seq<NameRow>, k: int, before: seq<string>)
    requires k in nodes && nodes[k].commonName == JoinedOrNone(before)
    ensures var r := AnnotateRows(nodes, rows, true);
            r.complete ==>
              && AllBeautify(NamesOf(rows, k))
              && r.nodes[k].commonName == JoinedOrNone(before + BeautifyAll(NamesOf(rows, k)))
    decreases |rows|
  {
    if |rows| == 0 {
      assert before + BeautifyAll([]) == before;
    } else {
      var names := NamesOf(rows, k);
      var tail := NamesOf(rows[1..], k);
      match ParseInt(rows[0].idField)
      case None =>
      case Some(id) =>
        if id in nodes {
          match Beautify(rows[0].vernacularName)
          case None =>
          case Some(c) =>
            var name := if nodes[id].commonName.None? then c else nodes[id].commonName.value + NameSeparator + c;
            var nodes1 := nodes[id := nodes[id].(commonName := Some(name))];
            if id == k {
              JoinedOrNoneAppend(before, c);
              AnnotateAllNames(nodes1, rows[1..], k, before + [c]);
              assert names == [rows[0].vernacularName] + tail;
              if AnnotateRows(nodes, rows, true).complete {
                BeautifyAllCons(rows[0].vernacularName, c, tail, before);
              }
            } else {
              AnnotateAllNames(nodes1, rows[1..], k, before);
              assert names == tail;
            }
        } else {
          AnnotateAllNames(nodes, rows[1..], k, before);
          assert names == tail;
        }
    }
  }
}
