/** The text side of quiz import and export: the `metadata.txt` format, the
    image file names written into the archive, the image-name check, and the
    validation and defaults applied to an uploaded archive before anything is
    stored. The ZIP container and CSV quoting are not modelled: an archive is
    its set of entry names, the text of `metadata.txt` and the rows that
    `csv.DictReader` yields. */
module Transfer {
  import opened Common
  import opened Strings
  import opened Models
  import opened Uploads

  // ---------------------------------------------------------------------------
  // metadata.txt

  /** The text export writes: three `key,value` lines, each ending in a newline.
      Split at newlines, it gives those lines and an empty remainder when the
      title and the description hold no newline. */
  function MetadataText(title: string, description: Option<string>, numPositions: int): (text: string)
    ensures '\n' !in title && (description.Some? ==> '\n' !in description.value) ==>
      Split(text, '\n') == ["title," + title, "description," + description.GetOr(""),
                            "num_positions," + IntToString(numPositions), ""]
  {
    var d := description.GetOr("");
    var n := IntToString(numPositions);
    var text := "title," + title + "\n" + "description," + d + "\n" + "num_positions," + n + "\n";
    if '\n' in title || '\n' in d then text
    else
      var lines := ["title," + title, "description," + d, "num_positions," + n, ""];
      assert '\n' !in n;
      assert forall k :: 0 <= k < |lines| ==> '\n' !in lines[k];
      MetadataLines(title, d, n);
      SplitJoin(lines, '\n');
      text
  }

  /** The line carries a key: it contains a comma. */
  predicate HasComma(line: string) { ',' in line }

  /** The text before the first comma. */
  function KeyOf(line: string): string
    requires HasComma(line)
  {
    line[..IndexOf(line, ',')]
  }

  /** The text after the first comma (later commas belong to the value). */
  function ValueOf(line: string): string
    requires HasComma(line)
  {
    line[IndexOf(line, ',') + 1..]
  }

  /** The dictionary after reading `lines` in order: lines without a comma are
      skipped and a later line overwrites an earlier one with the same key. */
  function MetadataOf(lines: seq<string>): map<string, string> {
    if lines == [] then map[]
    else
      var m := MetadataOf(lines[..|lines| - 1]);
      var line := lines[|lines| - 1];
      if HasComma(line) then m[KeyOf(line) := ValueOf(line)] else m
  }

  /** Reads `metadata.txt` line by line into a dictionary, as import does. */
  method ParseMetadata(text: string) returns (metadata: map<string, string>)
    ensures metadata == MetadataOf(Split(text, '\n'))
  {
    var lines := Split(text, '\n');
    metadata := map[];
    var i := 0;
    while i < |lines|
      invariant 0 <= i <= |lines|
      invariant metadata == MetadataOf(lines[..i])
    {
      var line := lines[i];
      assert lines[..i + 1][..i] == lines[..i];
      if ',' in line {
        var comma := IndexOf(line, ',');
        metadata := metadata[line[..comma] := line[comma + 1..]];
      }
      i := i + 1;
    }
    assert lines[..|lines|] == lines;
  }

  /** A key is present exactly when some line with a comma names it. */
  lemma {:induction false} MetadataKeyPresent(lines: seq<string>, key: string)
    ensures key in MetadataOf(lines) <==> exists i :: 0 <= i < |lines| && HasComma(lines[i]) && KeyOf(lines[i]) == key
  {
    if lines != [] {
      var init := lines[..|lines| - 1];
      var last := |lines| - 1;
      MetadataKeyPresent(init, key);
      if HasComma(lines[last]) && KeyOf(lines[last]) == key {
        assert key in MetadataOf(lines);
      } else {
        assert key in MetadataOf(lines) <==> key in MetadataOf(init);
        if key in MetadataOf(lines) {
          var i :| 0 <= i < |init| && HasComma(init[i]) && KeyOf(init[i]) == key;
          assert lines[i] == init[i];
        } else {
          forall i | 0 <= i < |lines| && HasComma(lines[i]) ensures KeyOf(lines[i]) != key {
            if i < last {
              assert lines[i] == init[i];
            }
          }
        }
      }
    }
  }

  /** The value of a key comes from the last line with a comma that names it. */
  lemma {:induction false} MetadataLastWins(lines: seq<string>, key: string)
    ensures forall i :: 0 <= i < |lines| && HasComma(lines[i]) && KeyOf(lines[i]) == key &&
                        (forall j :: i < j < |lines| && HasComma(lines[j]) ==> KeyOf(lines[j]) != key)
                        ==> key in MetadataOf(lines) && MetadataOf(lines)[key] == ValueOf(lines[i])
  {
    if lines != [] {
      var init := lines[..|lines| - 1];
      var last := |lines| - 1;
      MetadataLastWins(init, key);
      forall i | 0 <= i < |lines| && HasComma(lines[i]) && KeyOf(lines[i]) == key &&
                 (forall j :: i < j < |lines| && HasComma(lines[j]) ==> KeyOf(lines[j]) != key)
        ensures key in MetadataOf(lines) && MetadataOf(lines)[key] == ValueOf(lines[i])
      {
        if i < last {
          assert lines[i] == init[i];
          forall j | i < j < |init| && HasComma(init[j]) ensures KeyOf(init[j]) != key {
            assert init[j] == lines[j];
          }
          assert !(HasComma(lines[last]) && KeyOf(lines[last]) == key);
        }
      }
    }
  }

  /** What import takes from the metadata. */
  datatype Header = Header(title: string, description: string, numPositions: int)

  const ImportedTitle: string := "Imported Quiz"

  /** Title, description and `num_positions` with their defaults; `None` where
      `int()` rejects the stored `num_positions`. */
  function HeaderOf(metadata: map<string, string>): (h: Option<Header>)
    ensures "num_positions" !in metadata ==> h.Some? && h.value.numPositions == 4
    ensures h.Some? ==> h.value.title == (if "title" in metadata then metadata["title"] else "Imported Quiz")
    ensures h.Some? ==> h.value.description == (if "description" in metadata then metadata["description"] else "")
    ensures "num_positions" in metadata ==> (h.Some? <==> ParseInt(metadata["num_positions"]).Some?)
    ensures h.Some? && "num_positions" in metadata ==> h.value.numPositions == ParseInt(metadata["num_positions"]).value
  {
    var title := if "title" in metadata then metadata["title"] else ImportedTitle;
    var description := if "description" in metadata then metadata["description"] else "";
    var numPositions := if "num_positions" in metadata then ParseInt(metadata["num_positions"]) else Some(DefaultNumPositions);
    match numPositions
    case Some(n) => Some(Header(title, description, n))
    case None => None
  }

  /** The text of a metadata line `key,value` parses back to `key` and `value`. */
  lemma KeyValueLine(key: string, value: string)
    requires ',' !in key
    ensures HasComma(key + "," + value) && KeyOf(key + "," + value) == key && ValueOf(key + "," + value) == value
  {
    IndexOfAfter(key, ',', value);
    var line := key + "," + value;
    assert line == key + [','] + value;
    assert line[..|key|] == key;
    assert line[|key| + 1..] == value;
  }

  /** The export text is three lines and an empty remainder. */
  lemma MetadataLines(title: string, d: string, n: string)
    ensures "title," + title + "\n" + "description," + d + "\n" + "num_positions," + n + "\n"
         == Join(["title," + title, "description," + d, "num_positions," + n, ""], '\n')
  {
    var l1, l2, l3 := "title," + title, "description," + d, "num_positions," + n;
    var lines := [l1, l2, l3, ""];
    assert lines[1..][1..][1..] == [""];
    assert lines[1..][1..] == [l3, ""];
    assert lines[1..] == [l2, l3, ""];
    assert Join([l3, ""], '\n') == l3 + "\n";
    assert Join([l2, l3, ""], '\n') == l2 + "\n" + (l3 + "\n");
  }

  /** Reading the three exported lines gives back the three values. */
  lemma MetadataOfLines(title: string, d: string, n: string)
    ensures MetadataOf(["title," + title, "description," + d, "num_positions," + n, ""])
         == map["title" := title, "description" := d, "num_positions" := n]
  {
    var l1, l2, l3 := "title," + title, "description," + d, "num_positions," + n;
    var lines := [l1, l2, l3, ""];
    assert l1 == "title" + "," + title && l2 == "description" + "," + d && l3 == "num_positions" + "," + n;
    KeyValueLine("title", title);
    KeyValueLine("description", d);
    KeyValueLine("num_positions", n);
    assert lines[..3] == [l1, l2, l3] && [l1, l2, l3][..2] == [l1, l2] && [l1, l2][..1] == [l1];
    assert [l1][..0] == [];
    assert MetadataOf([l1]) == map["title" := title];
    assert MetadataOf([l1, l2]) == map["title" := title, "description" := d];
    assert MetadataOf([l1, l2, l3]) == map["title" := title, "description" := d, "num_positions" := n];
    assert !HasComma("");
  }

  /** Splitting the metadata export into lines and reading them gives the
      three key/value pairs, provided the title and the description are single
      lines. */
  lemma MetadataTextReadsBack(title: string, description: Option<string>, numPositions: int)
    requires '\n' !in title
    requires description.Some? ==> '\n' !in description.value
    ensures MetadataOf(Split(MetadataText(title, description, numPositions), '\n'))
         == map["title" := title, "description" := description.GetOr(""), "num_positions" := IntToString(numPositions)]
  {
    MetadataOfLines(title, description.GetOr(""), IntToString(numPositions));
  }

  /** Reading back the metadata export writes gives the title, the description
      (empty when there is none) and `num_positions`, provided the title and the
      description are single lines. */
  lemma MetadataRoundTrip(title: string, description: Option<string>, numPositions: int)
    requires '\n' !in title
    requires description.Some? ==> '\n' !in description.value
    ensures HeaderOf(MetadataOf(Split(MetadataText(title, description, numPositions), '\n')))
         == Some(Header(title, description.GetOr(""), numPositions))
  {
    MetadataTextReadsBack(title, description, numPositions);
    ParseIntToString(numPositions);
  }

  /** An archive without `metadata.txt` imports as "Imported Quiz" with four positions. */
  lemma HeaderDefaults()
    ensures HeaderOf(map[]) == Some(Header("Imported Quiz", "", 4))
  {
  }

  // ---------------------------------------------------------------------------
  // File names

  /** `os.path.splitext`, splitting at the last dot. */
  function SplitExt(name: string): (r: (string, string))
    ensures r.0 + r.1 == name
    ensures r.1 == [] <==> '.' !in name
    ensures r.1 != [] ==> r.1[0] == '.' && '.' !in r.1[1..]
  {
    if '.' in name then
      var i := LastIndexOf(name, '.');
      assert name == name[..i] + name[i..];
      assert name[i..][1..] == name[i + 1..];
      (name[..i], name[i..])
    else
      (name, "")
  }

  /** `f"{name}_{n}{ext}"`: the stem, an underscore, the counter, the extension. */
  function Numbered(name: string, n: nat): (r: string)
    ensures |r| > |name|
  {
    var (stem, ext) := SplitExt(name);
    stem + "_" + NatToString(n) + ext
  }

  /** Different counters give different names. */
  lemma NumberedInjective(name: string, m: nat, n: nat)
    requires Numbered(name, m) == Numbered(name, n)
    ensures m == n
  {
    var (stem, ext) := SplitExt(name);
    var a, b := NatToString(m), NatToString(n);
    var x, y := stem + "_" + a + ext, stem + "_" + b + ext;
    assert |a| == |b|;
    assert x[|stem| + 1..|stem| + 1 + |a|] == a;
    assert y[|stem| + 1..|stem| + 1 + |b|] == b;
    NatToStringInjective(m, n);
  }

  /** Numbering keeps the extension. */
  lemma NumberedKeepsExtension(name: string, n: nat)
    ensures SplitExt(Numbered(name, n)).1 == SplitExt(name).1
  {
    var (stem, ext) := SplitExt(name);
    var r := Numbered(name, n);
    var prefix := stem + "_" + NatToString(n);
    assert r == prefix + ext;
    assert '.' !in NatToString(n);
    if ext == [] {
      assert '.' !in stem;
      assert '.' !in r;
    } else {
      var i := |prefix|;
      assert r[i] == '.';
      assert r[i + 1..] == ext[1..];
      var j := LastIndexOf(r, '.');
      assert j == i;
      assert r[j..] == ext;
    }
  }

  /** The name `get_next_filename` tries on its `c`-th attempt. */
  function Candidate(baseName: string, c: nat): string
    requires c >= 1
  {
    if c == 1 then baseName else Numbered(baseName, c - 1)
  }

  /** The names tried before the `c`-th attempt. */
  ghost function Tried(baseName: string, c: nat): set<string>
    requires c >= 1
  {
    if c == 1 then {} else Tried(baseName, c - 1) + {Candidate(baseName, c - 1)}
  }

  lemma CandidateInjective(baseName: string, c: nat, d: nat)
    requires 1 <= c && 1 <= d && Candidate(baseName, c) == Candidate(baseName, d)
    ensures c == d
  {
    if c > 1 && d > 1 {
      NumberedInjective(baseName, c - 1, d - 1);
    }
  }

  /** No attempt repeats an earlier one, and every earlier one was recorded. */
  lemma {:induction false} TriedBefore(baseName: string, c: nat, d: nat)
    requires 1 <= c <= d
    ensures Candidate(baseName, d) !in Tried(baseName, c)
    ensures |Tried(baseName, c)| == c - 1
    ensures forall j :: 1 <= j < c ==> Candidate(baseName, j) in Tried(baseName, c)
  {
    if c > 1 {
      TriedBefore(baseName, c - 1, d);
      TriedBefore(baseName, c - 1, c - 1);
      if Candidate(baseName, d) == Candidate(baseName, c - 1) {
        CandidateInjective(baseName, d, c - 1);
      }
    }
  }

  /** `get_next_filename` with the directory listing given as a set of names:
      the base name when it is free, otherwise the first free numbered name. */
  method GetNextFilename(baseName: string, existing: set<string>) returns (name: string)
    ensures name !in existing
    ensures baseName !in existing ==> name == baseName
    ensures baseName in existing ==>
      exists n :: n >= 1 && name == Numbered(baseName, n) &&
                  forall j :: 1 <= j < n ==> Numbered(baseName, j) in existing
  {
    var counter: nat := 1;
    name := baseName;
    ghost var tried: set<string> := {};
    while name in existing
      invariant counter >= 1 && name == Candidate(baseName, counter)
      invariant tried == Tried(baseName, counter) && tried <= existing
      decreases |existing| - |tried|
    {
      TriedBefore(baseName, counter, counter);
      tried := tried + {name};
      name := Numbered(baseName, counter);
      counter := counter + 1;
      assert existing == tried + (existing - tried);
    }
    TriedBefore(baseName, counter, counter);
    if counter > 1 {
      var n := counter - 1;
      forall j | 1 <= j < n ensures Numbered(baseName, j) in existing {
        assert Numbered(baseName, j) == Candidate(baseName, j + 1);
      }
      assert baseName == Candidate(baseName, 1);
    }
  }

  /** A dot with no dot after it is the last dot. */
  lemma LastDot(filename: string, i: nat)
    requires i < |filename| && filename[i] == '.' && '.' !in filename[i + 1..]
    ensures LastIndexOf(filename, '.') == i
  {
    var k := LastIndexOf(filename, '.');
    forall j | 0 <= j < k && filename[j] == '.'
      ensures '.' in filename[j + 1..]
    {
      assert filename[j + 1..][k - j - 1] == '.';
    }
    forall j | k < j < |filename|
      ensures filename[j] != '.'
    {
      assert filename[j] == filename[k + 1..][j - k - 1];
    }
  }

  /** An accepted name splits as `stem.ext` with a dot-free `ext` whose
      lower-case form is an allowed extension. */
  lemma ValidImageHasExtension(filename: string)
    requires ValidateImageFile(filename)
    ensures exists i :: 0 <= i < |filename| && filename[i] == '.' && '.' !in filename[i + 1..] &&
                        ImageExtension(filename[i + 1..])
  {
    var k := LastIndexOf(filename, '.');
    assert 0 <= k < |filename| && filename[k] == '.' && '.' !in filename[k + 1..];
  }

  /** Conversely, a name `stem.ext` with a dot-free allowed `ext` is accepted. */
  lemma ExtensionMakesValidImage(filename: string, i: nat)
    requires i < |filename| && filename[i] == '.' && '.' !in filename[i + 1..]
    requires ImageExtension(filename[i + 1..])
    ensures ValidateImageFile(filename)
  {
    LastDot(filename, i);
  }

  /** Numbering a file name for export keeps it a valid image name. */
  lemma NumberedStaysValid(name: string, n: nat)
    requires ValidateImageFile(name)
    ensures ValidateImageFile(Numbered(name, n))
  {
    var r := Numbered(name, n);
    var e := SplitExt(name).1;
    ExtensionAfterLastDot(name);
    NumberedKeepsExtension(name, n);
    assert SplitExt(r).1 == e && e != [];
    assert '.' in r;
    ExtensionAfterLastDot(r);
    var j := LastIndexOf(r, '.');
    assert r[j + 1..] == e[1..];
    ExtensionMakesValidImage(r, j);
  }

  /** With a dot present, the extension is the last dot and what follows it. */
  lemma ExtensionAfterLastDot(name: string)
    requires '.' in name
    ensures SplitExt(name).1 != [] && name[LastIndexOf(name, '.') + 1..] == SplitExt(name).1[1..]
  {
    var i := LastIndexOf(name, '.');
    assert name[i..][1..] == name[i + 1..];
  }

  // ---------------------------------------------------------------------------
  // Names of the exported images

  /** `os.path.basename`: the text after the last slash. */
  function Basename(path: string): (r: string)
    ensures '/' !in r
    ensures |r| <= |path| && r == path[|path| - |r|..]
    ensures |r| < |path| ==> path[|path| - |r| - 1] == '/'
  {
    if '/' in path then path[LastIndexOf(path, '/') + 1..] else path
  }

  /** The name an exported image starts from: the item's original file name when
      it has a non-empty one, otherwise the last component of its stored URL. */
  function BaseFilename(item: QuizItem): (r: string)
    ensures item.originalFilename.Some? && item.originalFilename.value != "" ==> r == item.originalFilename.value
    ensures item.originalFilename.None? || item.originalFilename.value == "" ==>
      '/' !in r && |r| <= |item.imageUrl| && r == item.imageUrl[|item.imageUrl| - |r|..]
  {
    if item.originalFilename.Some? && item.originalFilename.value != "" then item.originalFilename.value
    else Basename(item.imageUrl)
  }

  /** A path segment of `s` starts at `i`: at the start or after a slash. */
  predicate SegmentStart(s: string, i: nat)
    requires i <= |s|
  {
    i == 0 || s[i - 1] == '/'
  }

  /** A path segment of `s` ends at `j`: at the end or before a slash. */
  predicate SegmentEnd(s: string, j: nat)
    requires j <= |s|
  {
    j == |s| || s[j] == '/'
  }

  /** `s[i..j]` is a whole path segment that is empty, `.` or `..`. */
  predicate DotSegment(s: string, i: nat, j: nat)
    requires i <= j <= |s|
  {
    j - i <= 2 && SegmentStart(s, i) && SegmentEnd(s, j) && forall m :: i <= m < j ==> s[m] == '.'
  }

  /** A relative path that `zipfile` stores as it is: no NUL, at which the entry
      name would be cut, and no empty, `.` or `..` segment for
      `os.path.normpath` to remove or resolve (so no leading, trailing or
      doubled slash and not empty). */
  predicate NormalPath(s: string) {
    '\0' !in s && forall i, j :: 0 <= i <= j <= |s| ==> !DotSegment(s, i, j)
  }

  /** A name that survives the trip through the archive and `quiz.csv`: a
      normal path, no white space at either end for `strip()` to remove, no
      line break for `splitlines()` to split at. */
  predicate CleanName(name: string) {
    name != "" && NormalPath(name) && !IsSpace(name[0]) && !IsSpace(name[|name| - 1]) && SingleLine(name)
  }

  /** Inserting `w` characters that are neither dot, slash nor NUL at `p` keeps
      a normal path normal: every segment the insertion touches contains one of
      them. */
  lemma InsertKeepsNormal(name: string, r: string, p: nat, w: nat)
    requires NormalPath(name)
    requires p <= |name| && w >= 1 && |r| == |name| + w
    requires forall m :: 0 <= m < p ==> r[m] == name[m]
    requires forall m :: p + w <= m < |r| ==> r[m] == name[m - w]
    requires forall m :: p <= m < p + w ==> r[m] != '.' && r[m] != '/' && r[m] != '\0'
    ensures NormalPath(r)
  {
    var q := p + w;
    forall i, j | 0 <= i <= j <= |r| ensures !DotSegment(r, i, j) {
      if j < p {
        assert DotSegment(r, i, j) ==> DotSegment(name, i, j);
      } else if i > q {
        assert DotSegment(r, i, j) ==> DotSegment(name, i - w, j - w) by {
          if DotSegment(r, i, j) {
            forall m | i - w <= m < j - w ensures name[m] == '.' {
              assert r[m + w] == name[m];
            }
          }
        }
      } else if i == j {
        if i == p {
          assert !SegmentEnd(r, j);
        } else {
          assert !SegmentStart(r, i);
        }
      } else if i == q {
        assert !SegmentStart(r, i);
      } else if j == p {
        assert !SegmentEnd(r, j);
      } else {
        var m := if i < p then p else i;
        assert i <= m < j && r[m] != '.';
      }
    }
    forall m | 0 <= m < |r| ensures r[m] != '\0' {
      if m < p {
        assert name[m] in name;
      } else if m >= q {
        assert name[m - w] in name;
      }
    }
  }

  /** Where the characters of `stem + ins + ext` come from. */
  lemma SplicedLayout(stem: string, ins: string, ext: string)
    ensures forall m :: 0 <= m < |stem| ==> (stem + ins + ext)[m] == (stem + ext)[m]
    ensures forall m :: |stem| <= m < |stem| + |ins| ==> (stem + ins + ext)[m] == ins[m - |stem|]
    ensures forall m :: |stem| + |ins| <= m < |stem| + |ins| + |ext| ==> (stem + ins + ext)[m] == (stem + ext)[m - |ins|]
  {
  }

  /** Numbering a normal path gives a normal path: the inserted `_k` holds
      neither a dot nor a slash. */
  lemma NumberedNormal(name: string, n: nat)
    requires NormalPath(name)
    ensures NormalPath(Numbered(name, n))
  {
    var (stem, ext) := SplitExt(name);
    var ins := "_" + NatToString(n);
    var r := stem + ins + ext;
    assert r == Numbered(name, n);
    assert name == stem + ext;
    SplicedLayout(stem, ins, ext);
    assert forall m :: 0 < m < |ins| ==> IsDigit(ins[m]);
    InsertKeepsNormal(name, r, |stem|, |ins|);
  }

  /** Numbering a clean name gives a clean name. */
  lemma NumberedClean(name: string, n: nat)
    requires CleanName(name)
    ensures CleanName(Numbered(name, n))
  {
    var (stem, ext) := SplitExt(name);
    var d := NatToString(n);
    var r := stem + "_" + d + ext;
    assert r == Numbered(name, n);
    NumberedNormal(name, n);
    assert r[0] == (if stem != [] then name[0] else '_');
    assert r[|r| - 1] == (if ext != [] then name[|name| - 1] else d[|d| - 1]);
    forall i | 0 <= i < |r| ensures !IsLineBreak(r[i]) {
      if i < |stem| {
        assert r[i] == name[i];
      } else if i == |stem| {
        assert r[i] == '_';
      } else if i < |stem| + 1 + |d| {
        assert r[i] == d[i - |stem| - 1];
      } else {
        assert r[i] == name[i - 1 - |d|];
      }
    }
  }

  /** The name export gives an image whose base name occurred `k` times before:
      the base name itself the first time, `stem_k.ext` after that. */
  function ExportName(earlier: seq<string>, baseName: string): string {
    var k := multiset(earlier)[baseName];
    if k == 0 then baseName else Numbered(baseName, k)
  }

  /** The names export writes, one per item in `item_order`. */
  function ExportNames(bases: seq<string>): (names: seq<string>)
    ensures |names| == |bases|
  {
    seq(|bases|, k requires 0 <= k < |bases| => ExportName(bases[..k], bases[k]))
  }

  /** Export names of clean base names are clean. */
  lemma ExportNamesClean(bases: seq<string>)
    requires forall k :: 0 <= k < |bases| ==> CleanName(bases[k])
    ensures forall k :: 0 <= k < |bases| ==> CleanName(ExportNames(bases)[k])
  {
    forall k | 0 <= k < |bases| ensures CleanName(ExportNames(bases)[k]) {
      var m := multiset(bases[..k])[bases[k]];
      if m > 0 {
        NumberedClean(bases[k], m);
      }
    }
  }

  /** Exporting one more item appends that item's name. */
  lemma ExportNamesAppend(bases: seq<string>, b: string)
    ensures ExportNames(bases + [b]) == ExportNames(bases) + [ExportName(bases, b)]
  {
    var s := bases + [b];
    forall k | 0 <= k < |bases| ensures s[..k] == bases[..k] && s[k] == bases[k] {
    }
    assert s[..|bases|] == bases;
    SameElements(ExportNames(s), ExportNames(bases) + [ExportName(bases, b)]);
  }

  /** The loop of `export_quiz_to_zip` that renames repeated base names, with its
      table of how often each base name has been numbered. */
  method ExportFilenames(bases: seq<string>) returns (names: seq<string>)
    ensures names == ExportNames(bases)
  {
    var filenameMap: map<string, nat> := map[];
    names := [];
    for i := 0 to |bases|
      invariant names == ExportNames(bases[..i])
      invariant forall b :: b in filenameMap <==> multiset(bases[..i])[b] > 0
      invariant forall b :: b in filenameMap ==> filenameMap[b] == multiset(bases[..i])[b] - 1
    {
      var b := bases[i];
      ghost var seen := multiset(bases[..i]);
      assert bases[..i + 1] == bases[..i] + [b];
      assert multiset(bases[..i + 1]) == seen + multiset{b};
      var unique;
      if b in filenameMap {
        filenameMap := filenameMap[b := filenameMap[b] + 1];
        unique := Numbered(b, filenameMap[b]);
      } else {
        filenameMap := filenameMap[b := 0];
        unique := b;
      }
      assert unique == ExportName(bases[..i], b);
      ExportNamesAppend(bases[..i], b);
      names := names + [unique];
    }
    assert bases[..|bases|] == bases;
  }

  /** Two items with the same base name never get the same exported name. */
  lemma ExportNamesSameBaseDistinct(bases: seq<string>, i: nat, j: nat)
    requires i < j < |bases| && bases[i] == bases[j]
    ensures ExportNames(bases)[i] != ExportNames(bases)[j]
  {
    var b := bases[i];
    assert bases[..j] == bases[..i] + bases[i..j];
    assert bases[i..j][0] == b;
    assert multiset(bases[..j])[b] > multiset(bases[..i])[b];
    var ki, kj := multiset(bases[..i])[b], multiset(bases[..j])[b];
    if ki > 0 && Numbered(b, ki) == Numbered(b, kj) {
      NumberedInjective(b, ki, kj);
    }
  }

  /** Export names can still collide when one base name is the numbered form of
      another: `a.png`, `a.png`, `a_1.png` are all exported as `a.png`,
      `a_1.png`, `a_1.png`, so two images are written to the same archive entry. */
  lemma ExportNamesCollide()
    ensures ExportNames(["a.png", "a.png", "a_1.png"]) == ["a.png", "a_1.png", "a_1.png"]
  {
    var bases := ["a.png", "a.png", "a_1.png"];
    assert bases[..0] == [] && bases[..1] == ["a.png"] && bases[..2] == ["a.png", "a.png"];
    assert multiset(bases[..1])["a.png"] == 1;
    assert multiset(bases[..2])["a_1.png"] == 0;
    assert LastIndexOf("a.png", '.') == 1;
    assert "a.png"[..1] == "a" && "a.png"[1..] == ".png";
    assert SplitExt("a.png") == ("a", ".png");
    assert NatToString(1) == "1";
    assert Numbered("a.png", 1) == "a_1.png";
    var names := ExportNames(bases);
    assert names[0] == "a.png";
    assert names[1] == "a_1.png";
    assert names[2] == "a_1.png";
    SameElements(names, ["a.png", "a_1.png", "a_1.png"]);
  }

  /** Export naming with every name checked against the names already written,
      as `get_next_filename` does against a directory: no two items share an
      archive entry, and an item keeps its base name when that name is free. */
  method UniqueExportFilenames(bases: seq<string>) returns (names: seq<string>)
    ensures |names| == |bases|
    ensures forall i, j :: 0 <= i < j < |names| ==> names[i] != names[j]
    ensures forall k :: 0 <= k < |bases| && bases[k] !in names[..k] ==> names[k] == bases[k]
    ensures forall k :: 0 <= k < |bases| && bases[k] in names[..k] ==>
      exists n :: n >= 1 && names[k] == Numbered(bases[k], n)
  {
    names := [];
    for i := 0 to |bases|
      invariant |names| == i
      invariant forall a, b :: 0 <= a < b < i ==> names[a] != names[b]
      invariant forall k :: 0 <= k < i && bases[k] !in names[..k] ==> names[k] == bases[k]
      invariant forall k :: 0 <= k < i && bases[k] in names[..k] ==>
        exists n :: n >= 1 && names[k] == Numbered(bases[k], n)
    {
      var used := set n | n in names;
      var unique := GetNextFilename(bases[i], used);
      assert forall k :: 0 <= k < i ==> (names + [unique])[..k] == names[..k];
      assert (names + [unique])[..i] == names;
      names := names + [unique];
    }
  }

  // ---------------------------------------------------------------------------
  // Archives

  /** A row of `quiz.csv` as `csv.DictReader` yields it: column name to text,
      and `None` for each column a short row leaves unfilled. */
  type CsvRecord = map<string, Option<string>>

  /** The CSV row export writes for an item stored under `fileName`. */
  function CsvRow(item: QuizItem, fileName: string): CsvRecord {
    map["text" := Some(item.text.GetOr("")),
        "correct_position" := Some(IntToString(item.correctPosition)),
        "item_order" := Some(IntToString(item.itemOrder)),
        "image_file" := Some(fileName)]
  }

  /** An archive: its entry names, the text of `metadata.txt` (read only when
      that entry exists) and the rows of `quiz.csv` (read only when that entry
      exists). Import reads `quiz.csv` through `splitlines()` and
      `csv.DictReader`, which give back the rows `csv.writer` wrote only when no
      value holds a line break; export is modelled for such values, and the
      round-trip lemmas below require them. */
  datatype Archive = Archive(entries: set<string>, metadataText: string, rows: seq<CsvRecord>)

  /** The archive export writes for a quiz whose items, in `item_order`, are
      stored under `names`; an image is included when its file is in `onDisk`. */
  function ExportArchive(title: string, description: Option<string>, numPositions: int,
                         items: seq<QuizItem>, names: seq<string>, onDisk: set<string>): (a: Archive)
    requires |names| == |items|
    ensures "quiz.csv" in a.entries && "metadata.txt" in a.entries
    ensures forall k :: 0 <= k < |items| && Basename(items[k].imageUrl) in onDisk ==> "images/" + names[k] in a.entries
    ensures forall e :: e in a.entries && e != "quiz.csv" && e != "metadata.txt" ==>
      exists k :: 0 <= k < |items| && Basename(items[k].imageUrl) in onDisk && e == "images/" + names[k]
    ensures a.metadataText == MetadataText(title, description, numPositions)
    ensures |a.rows| == |items| && forall k :: 0 <= k < |items| ==> a.rows[k] == CsvRow(items[k], names[k])
  {
    Archive({"quiz.csv", "metadata.txt"} + ImageEntries(items, names, onDisk),
            MetadataText(title, description, numPositions), CsvRows(items, names))
  }

  /** The `images/` entries export writes: one per item whose file is on disk. */
  function ImageEntries(items: seq<QuizItem>, names: seq<string>, onDisk: set<string>): (entries: set<string>)
    requires |names| == |items|
    ensures forall k :: 0 <= k < |items| && Basename(items[k].imageUrl) in onDisk ==> "images/" + names[k] in entries
    ensures forall e :: e in entries ==>
      exists k :: 0 <= k < |items| && Basename(items[k].imageUrl) in onDisk && e == "images/" + names[k]
  {
    set k | 0 <= k < |items| && Basename(items[k].imageUrl) in onDisk :: "images/" + names[k]
  }

  /** The rows export writes to `quiz.csv`, one per item. */
  function CsvRows(items: seq<QuizItem>, names: seq<string>): (rows: seq<CsvRecord>)
    requires |names| == |items|
    ensures |rows| == |items| && forall k :: 0 <= k < |items| ==> rows[k] == CsvRow(items[k], names[k])
  {
    seq(|items|, k requires 0 <= k < |items| => CsvRow(items[k], names[k]))
  }

  /** The names `export_quiz_to_zip` gives the images of `items` (in `item_order`):
      each item's base name, numbered when it repeats an earlier one. */
  function ExportedNames(items: seq<QuizItem>): (names: seq<string>)
    ensures |names| == |items|
    ensures forall k :: 0 <= k < |items| && (forall j :: 0 <= j < k ==> BaseFilename(items[j]) != BaseFilename(items[k]))
                        ==> names[k] == BaseFilename(items[k])
  {
    var bases := seq(|items|, k requires 0 <= k < |items| => BaseFilename(items[k]));
    forall k | 0 <= k < |items| && (forall j :: 0 <= j < k ==> BaseFilename(items[j]) != BaseFilename(items[k]))
      ensures ExportNames(bases)[k] == BaseFilename(items[k])
    {
      assert bases[k] !in bases[..k];
      assert multiset(bases[..k])[bases[k]] == 0;
    }
    ExportNames(bases)
  }

  /** `export_quiz_to_zip`: the archive for a quiz whose items, in `item_order`,
      are stored under their exported names. */
  function QuizArchive(title: string, description: Option<string>, numPositions: int,
                       items: seq<QuizItem>, onDisk: set<string>): (a: Archive)
    ensures "quiz.csv" in a.entries && "metadata.txt" in a.entries
    ensures a.metadataText == MetadataText(title, description, numPositions)
    ensures |a.rows| == |items| && forall k :: 0 <= k < |items| ==> a.rows[k] == CsvRow(items[k], ExportedNames(items)[k])
    ensures forall k :: 0 <= k < |items| && Basename(items[k].imageUrl) in onDisk ==>
      "images/" + ExportedNames(items)[k] in a.entries
    ensures forall k :: 0 <= k < |items| && (forall j :: 0 <= j < k ==> BaseFilename(items[j]) != BaseFilename(items[k])) ==>
      a.rows[k] == CsvRow(items[k], BaseFilename(items[k]))
  {
    ExportArchive(title, description, numPositions, items, ExportedNames(items), onDisk)
  }

  datatype ImportError =
    | MissingCsv
    | EmptyCsv
    | MissingImageFile
    | ImageNotInArchive(file: string)
    | InvalidData
    /** Any other exception: reported as "Import failed" after a rollback. */
    | ImportFailed

  /** An item import will create (its image is stored under a new name). */
  datatype ItemSpec = ItemSpec(text: string, imageFile: string, correctPosition: int, itemOrder: int)

  datatype ImportPlan = ImportPlan(header: Header, items: seq<ItemSpec>)

  /** `row.get(key, default)`. */
  function Field(row: CsvRecord, key: string, default: string): Option<string> {
    if key in row then row[key] else Some(default)
  }

  /** `row.get('image_file', '')` is a text, so `strip()` can be called on it. */
  predicate HasImageText(row: CsvRecord) {
    Field(row, "image_file", "").Some?
  }

  /** The image file a row names, without surrounding white space; empty for a
      row that leaves the column unfilled (there `strip()` fails instead). */
  function ImageFileOf(row: CsvRecord): string {
    match Field(row, "image_file", "")
    case Some(t) => Strip(t)
    case None => ""
  }

  /** `row.get('text', '') or ''`. */
  function TextOf(row: CsvRecord): string {
    match Field(row, "text", "")
    case Some(t) => t
    case None => ""
  }

  /** A named image file that the archive holds under `images/`. */
  predicate NameFound(name: string, entries: set<string>) {
    name != "" && "images/" + name in entries
  }

  predicate ImageFound(row: CsvRecord, entries: set<string>) {
    HasImageText(row) && NameFound(ImageFileOf(row), entries)
  }

  /** The index of the first row from `i` on whose image file is unfilled,
      blank or missing from the archive; `|rows|` when there is none. */
  function FirstMissing(rows: seq<CsvRecord>, entries: set<string>, i: nat): (k: nat)
    requires i <= |rows|
    ensures i <= k <= |rows|
    ensures forall j :: i <= j < k ==> ImageFound(rows[j], entries)
    ensures k < |rows| ==> !ImageFound(rows[k], entries)
    decreases |rows| - i
  {
    if i == |rows| || !ImageFound(rows[i], entries) then i
    else FirstMissing(rows, entries, i + 1)
  }

  /** The image check: rows are checked in order and the first bad one decides
      the error. */
  function ImageCheck(rows: seq<CsvRecord>, entries: set<string>): (r: Option<ImportError>)
    ensures r.None? <==> forall k :: 0 <= k < |rows| ==> ImageFound(rows[k], entries)
    ensures forall k :: 0 <= k < |rows| && !ImageFound(rows[k], entries) &&
                        (forall j :: 0 <= j < k ==> ImageFound(rows[j], entries)) ==>
      r == Some(if !HasImageText(rows[k]) then ImportFailed
                else if ImageFileOf(rows[k]) == "" then MissingImageFile
                else ImageNotInArchive(ImageFileOf(rows[k])))
  {
    var k := FirstMissing(rows, entries, 0);
    forall m | 0 <= m < |rows| && !ImageFound(rows[m], entries) &&
               (forall j :: 0 <= j < m ==> ImageFound(rows[j], entries))
      ensures m == k
    {
    }
    if k == |rows| then None
    else if !HasImageText(rows[k]) then Some(ImportFailed)
    else if ImageFileOf(rows[k]) == "" then Some(MissingImageFile)
    else Some(ImageNotInArchive(ImageFileOf(rows[k])))
  }

  /** `int(row.get(key, default))`: `InvalidData` where `int()` raises
      `ValueError`, `ImportFailed` where the column is unfilled and `int(None)`
      raises `TypeError`. */
  function IntField(row: CsvRecord, key: string, default: int): Result<int, ImportError> {
    if key !in row then Ok(default)
    else match row[key]
      case None => Err(ImportFailed)
      case Some(t) =>
        match ParseInt(t)
        case Some(n) => Ok(n)
        case None => Err(InvalidData)
  }

  /** The item a row describes: text defaults to empty, both positions to 1;
      `correct_position` is converted before `item_order`, so its error wins. */
  function ItemSpecOf(row: CsvRecord): (r: Result<ItemSpec, ImportError>)
    ensures r.Ok? <==> IntField(row, "correct_position", 1).Ok? && IntField(row, "item_order", 1).Ok?
    ensures IntField(row, "correct_position", 1).Err? ==> r == Err(IntField(row, "correct_position", 1).error)
    ensures IntField(row, "correct_position", 1).Ok? && IntField(row, "item_order", 1).Err? ==>
      r == Err(IntField(row, "item_order", 1).error)
    ensures r.Ok? ==> r.value.text == TextOf(row) && r.value.imageFile == ImageFileOf(row)
    ensures r.Ok? ==> r.value.correctPosition == IntField(row, "correct_position", 1).value &&
                      r.value.itemOrder == IntField(row, "item_order", 1).value
  {
    match IntField(row, "correct_position", 1)
    case Err(e) => Err(e)
    case Ok(cp) =>
      match IntField(row, "item_order", 1)
      case Err(e) => Err(e)
      case Ok(io) => Ok(ItemSpec(TextOf(row), ImageFileOf(row), cp, io))
  }

  /** The index of the first row from `i` on that does not describe an item;
      `|rows|` when there is none. */
  function FirstInvalid(rows: seq<CsvRecord>, i: nat): (k: nat)
    requires i <= |rows|
    ensures i <= k <= |rows|
    ensures forall j :: i <= j < k ==> ItemSpecOf(rows[j]).Ok?
    ensures k < |rows| ==> ItemSpecOf(rows[k]).Err?
    decreases |rows| - i
  {
    if i == |rows| || ItemSpecOf(rows[i]).Err? then i
    else FirstInvalid(rows, i + 1)
  }

  /** The items of all rows, in order; the first row that does not describe an
      item decides the error. */
  function ItemSpecs(rows: seq<CsvRecord>): (r: Result<seq<ItemSpec>, ImportError>)
    ensures r.Ok? <==> forall k :: 0 <= k < |rows| ==> ItemSpecOf(rows[k]).Ok?
    ensures r.Ok? ==> |r.value| == |rows| && forall k :: 0 <= k < |rows| ==> r.value[k] == ItemSpecOf(rows[k]).value
    ensures forall k :: 0 <= k < |rows| && ItemSpecOf(rows[k]).Err? &&
                        (forall j :: 0 <= j < k ==> ItemSpecOf(rows[j]).Ok?) ==>
      r == Err(ItemSpecOf(rows[k]).error)
  {
    var k := FirstInvalid(rows, 0);
    forall m | 0 <= m < |rows| && ItemSpecOf(rows[m]).Err? && (forall j :: 0 <= j < m ==> ItemSpecOf(rows[j]).Ok?)
      ensures m == k
    {
    }
    if k < |rows| then Err(ItemSpecOf(rows[k]).error)
    else Ok(seq(|rows|, j requires 0 <= j < |rows| => ItemSpecOf(rows[j]).value))
  }

  /** The metadata import reads: none when the archive has no `metadata.txt`. */
  function ArchiveMetadata(a: Archive): map<string, string> {
    if "metadata.txt" in a.entries then MetadataOf(Split(a.metadataText, '\n')) else map[]
  }

  /** `import_quiz_from_zip` up to the point where rows are stored: the checks in
      the order the code makes them, then the quiz header and the items. */
  function PrepareImport(a: Archive): (r: Result<ImportPlan, ImportError>)
    ensures "quiz.csv" !in a.entries ==> r == Err(MissingCsv)
    ensures "quiz.csv" in a.entries && a.rows == [] ==> r == Err(EmptyCsv)
    ensures "quiz.csv" in a.entries && a.rows != [] && ImageCheck(a.rows, a.entries).Some? ==>
      r == Err(ImageCheck(a.rows, a.entries).value)
    ensures ("quiz.csv" in a.entries && a.rows != [] && ImageCheck(a.rows, a.entries).None? &&
             HeaderOf(ArchiveMetadata(a)).None?) ==> r == Err(InvalidData)
    ensures ("quiz.csv" in a.entries && a.rows != [] && ImageCheck(a.rows, a.entries).None? &&
             HeaderOf(ArchiveMetadata(a)).Some? && ItemSpecs(a.rows).Err?) ==> r == Err(ItemSpecs(a.rows).error)
    ensures r.Ok? <==> ("quiz.csv" in a.entries && a.rows != [] &&
                        (forall k :: 0 <= k < |a.rows| ==> ImageFound(a.rows[k], a.entries)) &&
                        HeaderOf(ArchiveMetadata(a)).Some? && ItemSpecs(a.rows).Ok?)
    ensures r.Ok? ==> r.value.header == HeaderOf(ArchiveMetadata(a)).value
    ensures r.Ok? ==> r.value.items == ItemSpecs(a.rows).value && |r.value.items| == |a.rows|
    ensures r.Ok? ==> forall k :: 0 <= k < |a.rows| ==>
      r.value.items[k].imageFile == ImageFileOf(a.rows[k]) && "images/" + r.value.items[k].imageFile in a.entries
  {
    if "quiz.csv" !in a.entries then Err(MissingCsv)
    else if a.rows == [] then Err(EmptyCsv)
    else match ImageCheck(a.rows, a.entries)
      case Some(e) => Err(e)
      case None =>
        match HeaderOf(ArchiveMetadata(a))
        case None => Err(InvalidData)
        case Some(header) =>
          match ItemSpecs(a.rows)
          case Err(e) => Err(e)
          case Ok(items) => Ok(ImportPlan(header, items))
  }

  /** A row too short to fill `image_file` makes `strip()` fail on `None`: the
      import fails as a whole, even when earlier rows are fine. */
  lemma UnfilledImageFails(a: Archive, k: nat)
    requires "quiz.csv" in a.entries && k < |a.rows|
    requires forall j :: 0 <= j < k ==> ImageFound(a.rows[j], a.entries)
    requires "image_file" in a.rows[k] && a.rows[k]["image_file"] == None
    ensures PrepareImport(a) == Err(ImportFailed)
  {
    assert !ImageFound(a.rows[k], a.entries);
  }

  /** A row whose images are present but whose `correct_position` is unfilled
      fails with `int(None)`, while a malformed one fails as invalid data. */
  lemma UnfilledPositionFails(row: CsvRecord, t: string)
    requires "correct_position" in row
    ensures row["correct_position"] == None ==> ItemSpecOf(row) == Err(ImportFailed)
    ensures row["correct_position"] == Some(t) && ParseInt(t).None? ==> ItemSpecOf(row) == Err(InvalidData)
  {
  }

  /** One exported row, with a clean image name and a single-line text, reads
      back as the item it was written from. */
  lemma RowRoundTrip(item: QuizItem, name: string)
    requires CleanName(name) && SingleLine(item.text.GetOr(""))
    ensures ImageFileOf(CsvRow(item, name)) == name
    ensures ItemSpecOf(CsvRow(item, name)) == Ok(ItemSpec(item.text.GetOr(""), name, item.correctPosition, item.itemOrder))
  {
    var row := CsvRow(item, name);
    assert row["image_file"] == Some(name) && row["text"] == Some(item.text.GetOr(""));
    assert row["correct_position"] == Some(IntToString(item.correctPosition));
    assert row["item_order"] == Some(IntToString(item.itemOrder));
    StripTrimmed(name);
    ParseIntToString(item.correctPosition);
    ParseIntToString(item.itemOrder);
    assert IntField(row, "correct_position", 1) == Ok(item.correctPosition);
    assert IntField(row, "item_order", 1) == Ok(item.itemOrder);
  }

  /** Exported rows pass the image check. */
  lemma RowsPassImageCheck(items: seq<QuizItem>, names: seq<string>, rows: seq<CsvRecord>, entries: set<string>)
    requires |names| == |items| == |rows|
    requires forall k :: 0 <= k < |rows| ==> rows[k] == CsvRow(items[k], names[k]) && "images/" + names[k] in entries
    requires forall k :: 0 <= k < |names| ==> names[k] != "" && !IsSpace(names[k][0]) && !IsSpace(names[k][|names[k]| - 1])
    ensures ImageCheck(rows, entries).None?
  {
    forall k | 0 <= k < |rows| ensures ImageFound(rows[k], entries) {
      assert rows[k]["image_file"] == Some(names[k]);
      StripTrimmed(names[k]);
    }
  }

  /** Exported rows with clean image names and single-line texts read back as
      the items they were written from. */
  lemma RowsReadBack(items: seq<QuizItem>, names: seq<string>, rows: seq<CsvRecord>)
    requires |names| == |items| == |rows|
    requires forall k :: 0 <= k < |rows| ==> rows[k] == CsvRow(items[k], names[k])
    requires forall k :: 0 <= k < |names| ==> CleanName(names[k]) && SingleLine(items[k].text.GetOr(""))
    ensures ItemSpecs(rows) == Ok(seq(|items|, k requires 0 <= k < |items| =>
                            ItemSpec(items[k].text.GetOr(""), names[k], items[k].correctPosition, items[k].itemOrder)))
  {
    var specs := seq(|items|, k requires 0 <= k < |items| =>
                   ItemSpec(items[k].text.GetOr(""), names[k], items[k].correctPosition, items[k].itemOrder));
    forall k | 0 <= k < |rows| ensures ItemSpecOf(rows[k]) == Ok(specs[k]) {
      RowRoundTrip(items[k], names[k]);
    }
    var r := ItemSpecs(rows);
    assert r.Ok?;
    assert |r.value| == |specs|;
    SameElements(r.value, specs);
  }

  lemma SameElements<T>(a: seq<T>, b: seq<T>)
    requires |a| == |b| && forall k :: 0 <= k < |a| ==> a[k] == b[k]
    ensures a == b
  {
  }

  /** A quiz exported and imported again comes back with its title, description,
      number of positions and items (text, position, order, image name), provided
      it has items, its title, description and item texts are single lines, every
      image file was on disk and every exported name is clean. */
  lemma ExportImportRoundTrip(title: string, description: Option<string>, numPositions: int,
                              items: seq<QuizItem>, names: seq<string>, onDisk: set<string>)
    requires |names| == |items| > 0
    requires '\n' !in title && (description.Some? ==> '\n' !in description.value)
    requires forall k :: 0 <= k < |items| ==> Basename(items[k].imageUrl) in onDisk
    requires forall k :: 0 <= k < |names| ==> CleanName(names[k]) && SingleLine(items[k].text.GetOr(""))
    ensures PrepareImport(ExportArchive(title, description, numPositions, items, names, onDisk))
         == Ok(ImportPlan(Header(title, description.GetOr(""), numPositions),
                          seq(|items|, k requires 0 <= k < |items| =>
                            ItemSpec(items[k].text.GetOr(""), names[k], items[k].correctPosition, items[k].itemOrder))))
  {
    var a := ExportArchive(title, description, numPositions, items, names, onDisk);
    forall k | 0 <= k < |items| ensures "images/" + names[k] in a.entries {
    }
    RowsPassImageCheck(items, names, a.rows, a.entries);
    RowsReadBack(items, names, a.rows);
    MetadataRoundTrip(title, description, numPositions);
    assert "quiz.csv" in a.entries && "metadata.txt" in a.entries;
  }

  /** The export as `export_quiz_to_zip` names its images reads back the same
      way: a quiz with items, single-line title, description and item texts, and
      every image file on disk under a clean base name is imported with its
      header and, item by item, its text, positions and exported image name. */
  lemma QuizExportImportRoundTrip(title: string, description: Option<string>, numPositions: int,
                                  items: seq<QuizItem>, onDisk: set<string>)
    requires |items| > 0
    requires '\n' !in title && (description.Some? ==> '\n' !in description.value)
    requires forall k :: 0 <= k < |items| ==> Basename(items[k].imageUrl) in onDisk
    requires forall k :: 0 <= k < |items| ==> CleanName(BaseFilename(items[k])) && SingleLine(items[k].text.GetOr(""))
    ensures PrepareImport(QuizArchive(title, description, numPositions, items, onDisk))
         == Ok(ImportPlan(Header(title, description.GetOr(""), numPositions),
                          seq(|items|, k requires 0 <= k < |items| =>
                            ItemSpec(items[k].text.GetOr(""), ExportedNames(items)[k], items[k].correctPosition, items[k].itemOrder))))
  {
    var bases := seq(|items|, k requires 0 <= k < |items| => BaseFilename(items[k]));
    ExportNamesClean(bases);
    assert ExportedNames(items) == ExportNames(bases);
    ExportImportRoundTrip(title, description, numPositions, items, ExportedNames(items), onDisk);
  }

  /** A quiz without items exports to an archive that import rejects. */
  lemma EmptyQuizNotReimportable(title: string, description: Option<string>, numPositions: int, onDisk: set<string>)
    ensures PrepareImport(ExportArchive(title, description, numPositions, [], [], onDisk)) == Err(EmptyCsv)
  {
  }
}
