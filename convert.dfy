/**
 `_txt_to_pdf` as a whole and `convert_dmzj_txts_to_pdf` (dmzj_txt2pdf.py).

 The driver walks the download tree, renders every `.txt` fragment to a PDF
 at the same relative place under the output folder, records the pair in a
 dict, and then, for a group level of 1 or 2, sorts the fragments by folder
 key, merges each run of equal keys into `<key>.pdf` and returns every path
 it wrote, individual ones first.

 The file system is reduced to what the driver observes: the directory
 listing `os.walk` produces, the bytes of each fragment (a function of its
 path: a fragment is never overwritten, since every file the driver writes
 ends in ".pdf"), and the documents it writes, as a map from path to
 document whose later writes replace earlier ones.
 */
module Convert {
  import opened Wrappers
  import opened PyText
  import opened Paths
  import opened Encoding
  import opened Pdf
  import opened Layout
  import opened Grouping

  /** One `(dirpath, dirnames, filenames)` triple of `os.walk(root)`, `dirpath` taken relative to the root. */
  datatype WalkEntry = WalkEntry(dir: Path, files: seq<string>)

  /** What the driver takes from outside: file contents, the codecs, chardet, and BeautifulSoup's `get_text("\n")`. */
  datatype Env = Env(read: Path -> Bytes, codecs: Codecs, chardet: Chardet, clean: string -> string)

  /**
   `_txt_to_pdf`'s defaults on an A4 page: STSong-Light at 12 points, lines
   15 points apart, 42-point margins. The page height is 841.89 points,
   taken here as 841: the first line sits at 799 instead of 799.89, and a
   page still holds 51 lines. `int((595.28 - 2 * 42) / (12 * 0.55))` is 77.
   */
  const DefaultGeometry := Geometry(841, 42, 42, 15, 77, Font("STSong-Light", 12))

  // ---------------------------------------------------------------------------
  // `_txt_to_pdf`: decode, strip the markup, lay out
  // ---------------------------------------------------------------------------

  /** The document `_txt_to_pdf` writes for the fragment at `txt`. */
  function FragmentDocument(txt: Path, prefs: seq<CodecName>, g: Geometry, env: Env): Document
    requires g.maxChars >= 1
  {
    Layout.Layout(env.clean(Resolve(env.read(txt), prefs, env.codecs, env.chardet).0), g)
  }

  /**
   Reads the fragment, decodes it with the first codec of `prefs` that
   accepts it (or chardet's guess, or lossy UTF-8), strips the markup and
   renders the text; every visible character of the cleaned text is drawn.
   */
  method TxtToPdf(txt: Path, prefs: seq<CodecName>, g: Geometry, env: Env) returns (doc: Document)
    requires g.maxChars >= 1
    ensures doc == FragmentDocument(txt, prefs, g, env)
    ensures Visible(Concat(Drawn(doc))) == Visible(env.clean(Resolve(env.read(txt), prefs, env.codecs, env.chardet).0))
  {
    var raw := env.read(txt);
    var text, how := DecodeFragment(raw, prefs, env.codecs, env.chardet);
    var cleaned := env.clean(text);
    doc := Render(cleaned, g);
    NothingVisibleDropped(cleaned, g);
  }

  /** The document the driver writes for the fragment at `txt`: `_txt_to_pdf` with its defaults. */
  function FileDocument(env: Env, txt: Path): Document
  {
    FragmentDocument(txt, PreferenceOrder, DefaultGeometry, env)
  }

  /** `FileDocument` as the renderer the run is parameterised by. */
  function Renderer(env: Env): Path -> Document
  {
    txt => FileDocument(env, txt)
  }

  // ---------------------------------------------------------------------------
  // The fragments `os.walk` turns up
  // ---------------------------------------------------------------------------

  /** A fragment: its folder relative to the root and its file name. */
  datatype Fragment = Fragment(dir: Path, name: string)

  /** `Path(dirpath) / fname` */
  function TxtPath(root: Path, f: Fragment): Path
  {
    root + f.dir + [f.name]
  }

  /** `out / txt.relative_to(root).with_suffix(".pdf")` */
  function PdfPath(out: Path, f: Fragment): Path
  {
    out + f.dir + [PdfName(f.name)]
  }

  /** The `.txt` files of one folder, in listing order. */
  function TxtsIn(dir: Path, files: seq<string>): seq<Fragment>
  {
    if files == [] then []
    else
      var name := files[|files| - 1];
      TxtsIn(dir, files[..|files| - 1]) + (if IsTxtName(name) then [Fragment(dir, name)] else [])
  }

  /** The `.txt` files of the whole walk, in the order the driver meets them. */
  function Found(walk: seq<WalkEntry>): seq<Fragment>
  {
    if walk == [] then []
    else
      var entry := walk[|walk| - 1];
      Found(walk[..|walk| - 1]) + TxtsIn(entry.dir, entry.files)
  }

  lemma {:induction false} InTxtsIn(dir: Path, files: seq<string>, f: Fragment)
    ensures f in TxtsIn(dir, files) <==> f.dir == dir && f.name in files && IsTxtName(f.name)
  {
    if files != [] {
      var init := files[..|files| - 1];
      InTxtsIn(dir, init, f);
      assert files == init + [files[|files| - 1]];
    }
  }

  /** The driver converts exactly the files whose name ends in ".txt", in any case. */
  lemma {:induction false} InFound(walk: seq<WalkEntry>, f: Fragment)
    ensures f in Found(walk) <==>
              IsTxtName(f.name) && exists e :: 0 <= e < |walk| && walk[e].dir == f.dir && f.name in walk[e].files
  {
    if walk != [] {
      var init, entry := walk[..|walk| - 1], walk[|walk| - 1];
      InFound(init, f);
      InTxtsIn(entry.dir, entry.files, f);
      if f in Found(walk) && f !in Found(init) {
        assert walk[|walk| - 1].dir == f.dir && f.name in walk[|walk| - 1].files;
      }
      if IsTxtName(f.name) && exists e :: 0 <= e < |walk| && walk[e].dir == f.dir && f.name in walk[e].files {
        var e :| 0 <= e < |walk| && walk[e].dir == f.dir && f.name in walk[e].files;
        if e < |walk| - 1 {
          assert init[e] == walk[e];
        }
      }
    }
  }

  /** The fragments' paths. */
  function TxtPaths(root: Path, frags: seq<Fragment>): (paths: seq<Path>)
    ensures |paths| == |frags|
    ensures forall i :: 0 <= i < |frags| ==> paths[i] == TxtPath(root, frags[i])
  {
    if frags == [] then [] else TxtPaths(root, frags[..|frags| - 1]) + [TxtPath(root, frags[|frags| - 1])]
  }

  /** The individual PDFs' paths. */
  function PdfPaths(out: Path, frags: seq<Fragment>): (paths: seq<Path>)
    ensures |paths| == |frags|
    ensures forall i :: 0 <= i < |frags| ==> paths[i] == PdfPath(out, frags[i])
  {
    if frags == [] then [] else PdfPaths(out, frags[..|frags| - 1]) + [PdfPath(out, frags[|frags| - 1])]
  }

  /** Two fragments with one path are one fragment. */
  lemma TxtPathInjective(root: Path, f1: Fragment, f2: Fragment)
    requires TxtPath(root, f1) == TxtPath(root, f2)
    ensures f1 == f2
  {
    var a, b := TxtPath(root, f1), TxtPath(root, f2);
    assert a[|root|..] == f1.dir + [f1.name];
    assert b[|root|..] == f2.dir + [f2.name];
    assert f1.dir == a[|root|..|a| - 1];
  }

  // ---------------------------------------------------------------------------
  // The driver's state and what each step does to it
  // ---------------------------------------------------------------------------

  /**
   The driver's state: `created`, the files written so far with their last
   contents, and `pdf_of_txt` as its keys in insertion order and its map.
   */
  datatype Run = Run(created: seq<Path>, written: map<Path, Document>, order: seq<Path>, pdfOf: map<Path, Path>)

  const Initial := Run([], map[], [], map[])

  /** Converting one fragment: its PDF is written, recorded in `pdf_of_txt` and appended to `created`. */
  function ConvertOne(r: Run, root: Path, out: Path, f: Fragment, render: Path -> Document): (r': Run)
    ensures PdfPath(out, f) in r'.written && r'.written[PdfPath(out, f)] == render(TxtPath(root, f))
    ensures TxtPath(root, f) in r'.pdfOf && r'.pdfOf[TxtPath(root, f)] == PdfPath(out, f)
  {
    var txt := TxtPath(root, f);
    var pdf := PdfPath(out, f);
    Run(r.created + [pdf],
        r.written[pdf := render(txt)],
        if txt in r.pdfOf then r.order else r.order + [txt],
        r.pdfOf[txt := pdf])
  }

  function ConvertAll(r: Run, root: Path, out: Path, frags: seq<Fragment>, render: Path -> Document): (r': Run)
  {
    if frags == [] then r
    else ConvertOne(ConvertAll(r, root, out, frags[..|frags| - 1], render), root, out, frags[|frags| - 1], render)
  }

  lemma TxtsInStep(before: seq<Fragment>, dir: Path, files: seq<string>, i: int)
    requires 0 <= i < |files|
    ensures IsTxtName(files[i]) ==>
              before + TxtsIn(dir, files[..i + 1]) == (before + TxtsIn(dir, files[..i])) + [Fragment(dir, files[i])]
    ensures !IsTxtName(files[i]) ==> before + TxtsIn(dir, files[..i + 1]) == before + TxtsIn(dir, files[..i])
  {
    assert files[..i + 1][..i] == files[..i];
    if !IsTxtName(files[i]) {
      assert TxtsIn(dir, files[..i]) + [] == TxtsIn(dir, files[..i]);
    }
  }

  lemma FoundStep(walk: seq<WalkEntry>, e: int)
    requires 0 <= e < |walk|
    ensures Found(walk[..e + 1]) == Found(walk[..e]) + TxtsIn(walk[e].dir, walk[e].files)
  {
    assert walk[..e + 1][..e] == walk[..e];
  }

  lemma ConvertAllSnoc(r: Run, root: Path, out: Path, frags: seq<Fragment>, f: Fragment, render: Path -> Document)
    ensures ConvertAll(r, root, out, frags + [f], render) == ConvertOne(ConvertAll(r, root, out, frags, render), root, out, f, render)
  {
    assert (frags + [f])[..|frags|] == frags;
  }

  /** What `PdfWriter.append` of `pdf_of_txt[t]` contributes: the pages last written there. */
  function Stored(written: map<Path, Document>, pdfOf: map<Path, Path>, t: Path): Document
  {
    if t in pdfOf && pdfOf[t] in written then written[pdfOf[t]] else []
  }

  /** The pages of a group's PDFs, one after another. */
  function Appended(written: map<Path, Document>, pdfOf: map<Path, Path>, group: seq<Path>): Document
  {
    if group == [] then []
    else Appended(written, pdfOf, group[..|group| - 1]) + Stored(written, pdfOf, group[|group| - 1])
  }

  /** `out / f"{key}.pdf"` for the group whose key is that of its first member. */
  function MergedPath(out: Path, group: seq<Path>, key: Path -> string): Path
    requires group != []
  {
    out + [RunKey(group, key) + ".pdf"]
  }

  function MergedPaths(out: Path, groups: seq<seq<Path>>, key: Path -> string): (paths: seq<Path>)
    requires forall i :: 0 <= i < |groups| ==> groups[i] != []
    ensures |paths| == |groups|
    ensures forall i :: 0 <= i < |groups| ==> paths[i] == MergedPath(out, groups[i], key)
  {
    if groups == [] then []
    else MergedPaths(out, groups[..|groups| - 1], key) + [MergedPath(out, groups[|groups| - 1], key)]
  }

  /** Merging one group: its PDFs' pages are written to the merged path, which is appended to `created`. */
  function MergeOne(r: Run, out: Path, group: seq<Path>, key: Path -> string): (r': Run)
    requires group != []
    ensures r'.created == r.created + [MergedPath(out, group, key)]
    ensures MergedPath(out, group, key) in r'.written
    ensures r'.written[MergedPath(out, group, key)] == Appended(r.written, r.pdfOf, group)
    ensures r'.order == r.order && r'.pdfOf == r.pdfOf
  {
    var path := MergedPath(out, group, key);
    r.(created := r.created + [path], written := r.written[path := Appended(r.written, r.pdfOf, group)])
  }

  function MergeAll(r: Run, out: Path, groups: seq<seq<Path>>, key: Path -> string): (r': Run)
    requires forall i :: 0 <= i < |groups| ==> groups[i] != []
    ensures |r'.created| == |r.created| + |groups|
    ensures r'.order == r.order && r'.pdfOf == r.pdfOf
  {
    if groups == [] then r
    else MergeOne(MergeAll(r, out, groups[..|groups| - 1], key), out, groups[|groups| - 1], key)
  }

  /** `_folder_key_of(p, level)` as the sort and group key. */
  function KeyOf(level: int): Path -> string
  {
    LevelKey(ParentName, level)
  }

  /** The whole run of `convert_dmzj_txts_to_pdf`. */
  function Convert(root: Path, out: Path, walk: seq<WalkEntry>, level: int, render: Path -> Document): (r: Run)
    ensures Consistent(r) && Distinct(r.order)
    ensures |Found(walk)| <= |r.created| && r.created[..|Found(walk)|] == PdfPaths(out, Found(walk))
    ensures !(1 <= level <= 2) ==> r.created == PdfPaths(out, Found(walk))
  {
    ConvertAllShape(root, out, Found(walk), render);
    DedupDistinct(TxtPaths(root, Found(walk)));
    var converted := ConvertAll(Initial, root, out, Found(walk), render);
    if 1 <= level <= 2 then
      var plan := MergePlan(converted.order, KeyOf(level));
      MergeAllKeeps(converted, out, plan, KeyOf(level));
      MergeAllCreated(converted, out, plan, KeyOf(level));
      MergeAll(converted, out, plan, KeyOf(level))
    else converted
  }

  // ---------------------------------------------------------------------------
  // The driver
  // ---------------------------------------------------------------------------

  /** `order` lists exactly the keys of `pdf_of_txt`, and every PDF it names has been written. */
  ghost predicate Consistent(r: Run)
  {
    (forall t :: t in r.order <==> t in r.pdfOf) && (forall t :: t in r.pdfOf ==> r.pdfOf[t] in r.written)
  }

  /** The body of the inner loop for a `.txt` file: render it, record it, list it. */
  method ConvertFile(r0: Run, root: Path, out: Path, f: Fragment, env: Env) returns (r: Run)
    ensures r == ConvertOne(r0, root, out, f, Renderer(env))
  {
    var txt := TxtPath(root, f);
    var pdf := PdfPath(out, f);
    var doc := TxtToPdf(txt, PreferenceOrder, DefaultGeometry, env);
    var order := r0.order;
    if txt !in r0.pdfOf {
      order := order + [txt];
    }
    r := Run(r0.created + [pdf], r0.written[pdf := doc], order, r0.pdfOf[txt := pdf]);
  }

  /** The inner loop of step 1: the files of one folder, in listing order. */
  method ConvertFolder(r0: Run, root: Path, out: Path, dir: Path, files: seq<string>, env: Env, ghost before: seq<Fragment>)
    returns (r: Run)
    requires r0 == ConvertAll(Initial, root, out, before, Renderer(env))
    ensures r == ConvertAll(Initial, root, out, before + TxtsIn(dir, files), Renderer(env))
  {
    r := r0;
    var i := 0;
    ghost var done := before;
    assert before + TxtsIn(dir, files[..0]) == before;
    while i < |files|
      invariant 0 <= i <= |files|
      invariant done == before + TxtsIn(dir, files[..i])
      invariant r == ConvertAll(Initial, root, out, done, Renderer(env))
    {
      var name := files[i];
      TxtsInStep(before, dir, files, i);
      if IsTxtName(name) {
        var f := Fragment(dir, name);
        ConvertAllSnoc(Initial, root, out, done, f, Renderer(env));
        r := ConvertFile(r, root, out, f, env);
        done := done + [f];
      }
      i := i + 1;
    }
    assert files[..|files|] == files;
  }

  /** Step 1: every fragment of the walk, in walk order, converted to its own PDF. */
  method ConvertWalk(root: Path, out: Path, walk: seq<WalkEntry>, env: Env) returns (r: Run)
    ensures r == ConvertAll(Initial, root, out, Found(walk), Renderer(env))
  {
    r := Initial;
    var e := 0;
    while e < |walk|
      invariant 0 <= e <= |walk|
      invariant r == ConvertAll(Initial, root, out, Found(walk[..e]), Renderer(env))
    {
      ghost var before := Found(walk[..e]);
      ghost var next := Found(walk[..e + 1]);
      FoundStep(walk, e);
      assert next == before + TxtsIn(walk[e].dir, walk[e].files);
      r := ConvertFolder(r, root, out, walk[e].dir, walk[e].files, env, before);
      assert r == ConvertAll(Initial, root, out, next, Renderer(env));
      e := e + 1;
    }
    assert walk[..|walk|] == walk;
  }

  /** `writer.append(...)` for each member of a group: their pages, in group order. */
  method AppendGroup(written: map<Path, Document>, pdfOf: map<Path, Path>, group: seq<Path>) returns (merged: Document)
    requires forall t :: t in group ==> t in pdfOf && pdfOf[t] in written
    ensures merged == Appended(written, pdfOf, group)
  {
    merged := [];
    var j := 0;
    while j < |group|
      invariant 0 <= j <= |group|
      invariant merged == Appended(written, pdfOf, group[..j])
    {
      var t := group[j];
      assert group[..j + 1] == group[..j] + [t];
      merged := merged + written[pdfOf[t]];
      j := j + 1;
    }
    assert group[..|group|] == group;
  }

  /** Every member of a group of the plan is one of the grouped elements. */
  lemma PlanMembers(order: seq<Path>, key: Path -> string)
    ensures forall g, t :: 0 <= g < |MergePlan(order, key)| && t in MergePlan(order, key)[g] ==> t in order
  {
    var plan := MergePlan(order, key);
    MergePlanSpec(order, key);
    forall g, t | 0 <= g < |plan| && t in plan[g]
      ensures t in order
    {
      InFilter(order, key, RunKey(plan[g], key), t);
    }
  }

  /** Every group of the plan starts with one of the grouped elements. */
  lemma PlanHeads(order: seq<Path>, key: Path -> string)
    ensures forall g :: 0 <= g < |MergePlan(order, key)| ==>
              MergePlan(order, key)[g] != [] && MergePlan(order, key)[g][0] in order
  {
    var plan := MergePlan(order, key);
    PlanMembers(order, key);
    forall g | 0 <= g < |plan|
      ensures plan[g][0] in order
    {
      assert plan[g][0] in plan[g];
    }
  }

  lemma MergeAllStep(r: Run, out: Path, groups: seq<seq<Path>>, g: int, key: Path -> string)
    requires forall i :: 0 <= i < |groups| ==> groups[i] != []
    requires 0 <= g < |groups|
    ensures MergeAll(r, out, groups[..g + 1], key) == MergeOne(MergeAll(r, out, groups[..g], key), out, groups[g], key)
  {
    assert groups[..g + 1][..g] == groups[..g];
  }

  /** Step 2: the fragments sorted and grouped by folder key, each group merged into `<key>.pdf`. */
  method MergeByKey(r0: Run, out: Path, level: int) returns (r: Run)
    requires Consistent(r0)
    ensures r == MergeAll(r0, out, MergePlan(r0.order, KeyOf(level)), KeyOf(level))
  {
    var key := KeyOf(level);
    var plan := MergePlan(r0.order, key);
    PlanMembers(r0.order, key);
    r := r0;
    var g := 0;
    while g < |plan|
      invariant 0 <= g <= |plan|
      invariant r == MergeAll(r0, out, plan[..g], key)
      invariant r.pdfOf == r0.pdfOf
      invariant forall t :: t in r0.pdfOf ==> r0.pdfOf[t] in r.written
    {
      var group := plan[g];
      var merged := AppendGroup(r.written, r.pdfOf, group);
      var mergedPath := out + [key(group[0]) + ".pdf"];
      MergeAllStep(r0, out, plan, g, key);
      r := r.(created := r.created + [mergedPath], written := r.written[mergedPath := merged]);
      g := g + 1;
    }
    assert plan[..|plan|] == plan;
  }

  /**
   `convert_dmzj_txts_to_pdf(root, out, group_level)`: the paths it returns
   and the documents it leaves behind are those of `Convert`.
   */
  method ConvertDmzjTxtsToPdf(root: Path, out: Path, walk: seq<WalkEntry>, groupLevel: int, env: Env)
    returns (created: seq<Path>, written: map<Path, Document>)
    ensures created == Convert(root, out, walk, groupLevel, Renderer(env)).created
    ensures written == Convert(root, out, walk, groupLevel, Renderer(env)).written
  {
    var r := ConvertWalk(root, out, walk, env);
    if 1 <= groupLevel <= 2 {
      ConvertAllShape(root, out, Found(walk), Renderer(env));
      r := MergeByKey(r, out, groupLevel);
    }
    created, written := r.created, r.written;
  }

  // ---------------------------------------------------------------------------
  // What a run produces
  // ---------------------------------------------------------------------------

  /** The keys of a dict filled from `s`, in insertion order: each first occurrence. */
  function Dedup(s: seq<Path>): (r: seq<Path>)
    ensures forall x :: x in r <==> x in s
  {
    if s == [] then []
    else
      var init, last := s[..|s| - 1], s[|s| - 1];
      assert s == init + [last];
      var kept := Dedup(init);
      if last in kept then kept else kept + [last]
  }

  /** No path occurs twice. */
  ghost predicate Distinct(s: seq<Path>)
  {
    forall i, j :: 0 <= i < j < |s| ==> s[i] != s[j]
  }

  lemma {:induction false} DedupDistinct(s: seq<Path>)
    ensures Distinct(Dedup(s))
    ensures Distinct(s) ==> Dedup(s) == s
  {
    if s != [] {
      var init, last := s[..|s| - 1], s[|s| - 1];
      var kept := Dedup(init);
      DedupDistinct(init);
      if last !in kept {
        DistinctExtend(kept, last);
      }
      if Distinct(s) {
        assert s == init + [last];
        DistinctSnoc(init, last);
      }
    }
  }

  /** Adding a path not yet present keeps the paths distinct. */
  lemma DistinctExtend(a: seq<Path>, x: Path)
    requires Distinct(a) && x !in a
    ensures Distinct(a + [x])
  {
    var r := a + [x];
    forall i, j | 0 <= i < j < |r|
      ensures r[i] != r[j]
    {
      assert r[i] == a[i];
    }
  }

  lemma {:induction false} ConvertAllShape(root: Path, out: Path, frags: seq<Fragment>, render: Path -> Document)
    ensures Consistent(ConvertAll(Initial, root, out, frags, render))
    ensures ConvertAll(Initial, root, out, frags, render).created == PdfPaths(out, frags)
    ensures ConvertAll(Initial, root, out, frags, render).order == Dedup(TxtPaths(root, frags))
  {
    if frags != [] {
      var init := frags[..|frags| - 1];
      ConvertAllShape(root, out, init, render);
    }
  }

  /** The merge plan of a run: the fragments' paths, first occurrences only, grouped by folder key. */
  function Plan(root: Path, walk: seq<WalkEntry>, level: int): seq<seq<Path>>
  {
    MergePlan(Dedup(TxtPaths(root, Found(walk))), KeyOf(level))
  }

  lemma {:induction false} MergeAllCreated(r: Run, out: Path, groups: seq<seq<Path>>, key: Path -> string)
    requires forall i :: 0 <= i < |groups| ==> groups[i] != []
    ensures MergeAll(r, out, groups, key).created == r.created + MergedPaths(out, groups, key)
    ensures MergeAll(r, out, groups, key).order == r.order
    ensures MergeAll(r, out, groups, key).pdfOf == r.pdfOf
  {
    if groups != [] {
      MergeAllCreated(r, out, groups[..|groups| - 1], key);
    }
  }

  /**
   The list the driver returns: the individual PDFs in walk order, then, for
   a group level of 1 or 2, one `<key>.pdf` per group in the plan's order.
   */
  lemma CreatedList(root: Path, out: Path, walk: seq<WalkEntry>, level: int, render: Path -> Document)
    ensures Convert(root, out, walk, level, render).created ==
              PdfPaths(out, Found(walk)) + (if 1 <= level <= 2 then MergedPaths(out, Plan(root, walk, level), KeyOf(level)) else [])
  {
    var r := ConvertAll(Initial, root, out, Found(walk), render);
    ConvertAllShape(root, out, Found(walk), render);
    if 1 <= level <= 2 {
      MergeAllCreated(r, out, Plan(root, walk, level), KeyOf(level));
    } else {
      assert PdfPaths(out, Found(walk)) + [] == PdfPaths(out, Found(walk));
    }
  }

  /**
   The merged files: one per distinct folder key, in ascending key order,
   each holding every fragment with its key in the order the walk found
   them, and no fragment in two of them.
   */
  lemma PlanGroups(root: Path, out: Path, walk: seq<WalkEntry>, level: int)
    ensures forall g :: 0 <= g < |Plan(root, walk, level)| ==>
              Plan(root, walk, level)[g] ==
                Filter(Dedup(TxtPaths(root, Found(walk))), KeyOf(level), RunKey(Plan(root, walk, level)[g], KeyOf(level)))
    ensures forall g, h :: 0 <= g < h < |Plan(root, walk, level)| ==>
              Below(RunKey(Plan(root, walk, level)[g], KeyOf(level)), RunKey(Plan(root, walk, level)[h], KeyOf(level)))
    ensures forall i :: 0 <= i < |Found(walk)| ==>
              exists g :: 0 <= g < |Plan(root, walk, level)| && TxtPath(root, Found(walk)[i]) in Plan(root, walk, level)[g]
    ensures Distinct(MergedPaths(out, Plan(root, walk, level), KeyOf(level)))
  {
    var txts := Dedup(TxtPaths(root, Found(walk)));
    var key := KeyOf(level);
    var plan := Plan(root, walk, level);
    MergePlanSpec(txts, key);
    forall i | 0 <= i < |Found(walk)|
      ensures exists g :: 0 <= g < |plan| && TxtPath(root, Found(walk)[i]) in plan[g]
    {
      assert TxtPaths(root, Found(walk))[i] in TxtPaths(root, Found(walk));
    }
    MergedPathsDistinct(out, plan, key);
  }

  lemma AppendDiffers(a: string, b: string, t: string)
    requires a != b
    ensures a + t != b + t
  {
    if |a| == |b| {
      var i :| 0 <= i < |a| && a[i] != b[i];
      assert (a + t)[i] != (b + t)[i];
    }
  }

  /** Different keys give different merged paths. */
  lemma MergedPathsDistinct(out: Path, groups: seq<seq<Path>>, key: Path -> string)
    requires forall i :: 0 <= i < |groups| ==> groups[i] != []
    requires forall g, h :: 0 <= g < h < |groups| ==> Below(RunKey(groups[g], key), RunKey(groups[h], key))
    ensures Distinct(MergedPaths(out, groups, key))
  {
    var paths := MergedPaths(out, groups, key);
    forall g, h | 0 <= g < h < |paths|
      ensures paths[g] != paths[h]
    {
      var a, b := RunKey(groups[g], key), RunKey(groups[h], key);
      BelowIrreflexive(a);
      AppendDiffers(a, b, ".pdf");
      assert paths[g][|out|] == a + ".pdf";
      assert paths[h][|out|] == b + ".pdf";
    }
  }

  // ---------------------------------------------------------------------------
  // What ends up in the files
  // ---------------------------------------------------------------------------

  /** The pages of the fragments at `txts`, one document after another. */
  function Documents(render: Path -> Document, txts: seq<Path>): Document
  {
    if txts == [] then [] else Documents(render, txts[..|txts| - 1]) + render(txts[|txts| - 1])
  }

  /**
   No write of a run replaces another: different fragments have different
   PDF paths, and no individual PDF lies where a merged one is written.
   */
  ghost predicate NoCollisions(root: Path, out: Path, frags: seq<Fragment>, level: int)
  {
    Distinct(PdfPaths(out, frags)) &&
    (1 <= level <= 2 ==>
       forall i, j :: 0 <= i < |frags| && 0 <= j < |frags| ==>
         PdfPath(out, frags[i]) != out + [FolderKey(ParentName(TxtPath(root, frags[j])), level) + ".pdf"])
  }

  /** Fragments with different PDF paths have different paths. */
  lemma DistinctTxtPaths(root: Path, out: Path, frags: seq<Fragment>)
    requires Distinct(PdfPaths(out, frags))
    ensures Distinct(TxtPaths(root, frags))
  {
    forall i, j | 0 <= i < j < |frags|
      ensures TxtPath(root, frags[i]) != TxtPath(root, frags[j])
    {
      if TxtPath(root, frags[i]) == TxtPath(root, frags[j]) {
        TxtPathInjective(root, frags[i], frags[j]);
      }
    }
  }

  /** Each fragment's path is recorded against its PDF, which holds its document. */
  ghost predicate Recorded(r: Run, root: Path, out: Path, frags: seq<Fragment>, render: Path -> Document)
  {
    r.order == TxtPaths(root, frags) &&
    (forall i :: 0 <= i < |frags| ==>
       TxtPath(root, frags[i]) in r.pdfOf && r.pdfOf[TxtPath(root, frags[i])] == PdfPath(out, frags[i])) &&
    (forall i :: 0 <= i < |frags| ==>
       PdfPath(out, frags[i]) in r.written && r.written[PdfPath(out, frags[i])] == render(TxtPath(root, frags[i])))
  }

  lemma RecordedStep(r: Run, root: Path, out: Path, frags: seq<Fragment>, f: Fragment, render: Path -> Document)
    requires Recorded(r, root, out, frags, render) && Consistent(r)
    requires TxtPath(root, f) !in TxtPaths(root, frags)
    requires PdfPath(out, f) !in PdfPaths(out, frags)
    ensures Recorded(ConvertOne(r, root, out, f, render), root, out, frags + [f], render)
  {
    var txt, pdf := TxtPath(root, f), PdfPath(out, f);
    var next, all := ConvertOne(r, root, out, f, render), frags + [f];
    assert txt !in r.order;
    assert TxtPaths(root, all) == TxtPaths(root, frags) + [txt];
    assert next.pdfOf == r.pdfOf[txt := pdf];
    assert next.written == r.written[pdf := render(txt)];
    forall i | 0 <= i < |all|
      ensures TxtPath(root, all[i]) in next.pdfOf && next.pdfOf[TxtPath(root, all[i])] == PdfPath(out, all[i])
      ensures PdfPath(out, all[i]) in next.written && next.written[PdfPath(out, all[i])] == render(TxtPath(root, all[i]))
    {
      if i < |frags| {
        assert all[i] == frags[i];
        assert TxtPaths(root, frags)[i] != txt;
        assert PdfPaths(out, frags)[i] != pdf;
      }
    }
  }

  /** Dropping the last element of a sequence without repeats. */
  lemma DistinctSnoc(a: seq<Path>, x: Path)
    requires Distinct(a + [x])
    ensures Distinct(a) && x !in a
  {
    forall i, j | 0 <= i < j < |a|
      ensures a[i] != a[j]
    {
      assert (a + [x])[i] == a[i] && (a + [x])[j] == a[j];
    }
    forall i | 0 <= i < |a|
      ensures a[i] != x
    {
      assert (a + [x])[i] == a[i] && (a + [x])[|a|] == x;
    }
  }

  /**
   Step 1 without collisions: the dict's keys are the fragments' paths in
   walk order, each mapped to its own PDF, which holds its own document.
   */
  lemma {:induction false} ConvertAllDistinct(root: Path, out: Path, frags: seq<Fragment>, render: Path -> Document)
    requires Distinct(PdfPaths(out, frags))
    ensures Recorded(ConvertAll(Initial, root, out, frags, render), root, out, frags, render)
  {
    if frags != [] {
      var n := |frags|;
      var init, f := frags[..n - 1], frags[n - 1];
      assert init + [f] == frags;
      assert Distinct(PdfPaths(out, init)) && PdfPath(out, f) !in PdfPaths(out, init) by {
        DistinctSnoc(PdfPaths(out, init), PdfPath(out, f));
      }
      assert TxtPath(root, f) !in TxtPaths(root, init) by {
        DistinctTxtPaths(root, out, frags);
        DistinctSnoc(TxtPaths(root, init), TxtPath(root, f));
      }
      var r := ConvertAll(Initial, root, out, init, render);
      assert Recorded(r, root, out, init, render) && Consistent(r) by {
        ConvertAllDistinct(root, out, init, render);
        ConvertAllShape(root, out, init, render);
      }
      RecordedStep(r, root, out, init, f, render);
    }
  }

  lemma {:induction false} AppendedAgree(w1: map<Path, Document>, w2: map<Path, Document>, pdfOf: map<Path, Path>, group: seq<Path>)
    requires forall t :: t in group ==> Stored(w1, pdfOf, t) == Stored(w2, pdfOf, t)
    ensures Appended(w1, pdfOf, group) == Appended(w2, pdfOf, group)
  {
    if group != [] {
      AppendedAgree(w1, w2, pdfOf, group[..|group| - 1]);
    }
  }

  /** When every member's PDF holds its own document, the merge is those documents in group order. */
  lemma {:induction false} AppendedDocuments(written: map<Path, Document>, pdfOf: map<Path, Path>, group: seq<Path>, render: Path -> Document)
    requires forall t :: t in group ==> t in pdfOf && pdfOf[t] in written && written[pdfOf[t]] == render(t)
    ensures Appended(written, pdfOf, group) == Documents(render, group)
  {
    if group != [] {
      AppendedDocuments(written, pdfOf, group[..|group| - 1], render);
    }
  }

  /** Step 2 writes only the merged paths. */
  lemma {:induction false} MergeAllKeeps(r: Run, out: Path, groups: seq<seq<Path>>, key: Path -> string)
    requires forall i :: 0 <= i < |groups| ==> groups[i] != []
    ensures forall p :: p in MergeAll(r, out, groups, key).written <==> p in r.written || p in MergedPaths(out, groups, key)
    ensures forall p :: p in r.written && p !in MergedPaths(out, groups, key) ==>
              MergeAll(r, out, groups, key).written[p] == r.written[p]
  {
    if groups != [] {
      MergeAllKeeps(r, out, groups[..|groups| - 1], key);
    }
  }

  /** The merged paths of groups all of whose members' PDFs lie elsewhere. */
  ghost predicate MergeClear(r: Run, out: Path, groups: seq<seq<Path>>, key: Path -> string)
    requires forall i :: 0 <= i < |groups| ==> groups[i] != []
  {
    Distinct(MergedPaths(out, groups, key)) &&
    forall g, t :: 0 <= g < |groups| && t in groups[g] && t in r.pdfOf ==> r.pdfOf[t] !in MergedPaths(out, groups, key)
  }

  /** Each of the groups' merged paths holds that group's PDFs as they were in `r`. */
  ghost predicate MergedFrom(m: Run, r: Run, out: Path, groups: seq<seq<Path>>, key: Path -> string)
    requires forall i :: 0 <= i < |groups| ==> groups[i] != []
  {
    forall g :: 0 <= g < |groups| ==>
      MergedPath(out, groups[g], key) in m.written &&
      m.written[MergedPath(out, groups[g], key)] == Appended(r.written, r.pdfOf, groups[g])
  }

  lemma MergeClearInit(r: Run, out: Path, groups: seq<seq<Path>>, key: Path -> string)
    requires forall i :: 0 <= i < |groups| ==> groups[i] != []
    requires groups != [] && MergeClear(r, out, groups, key)
    ensures MergeClear(r, out, groups[..|groups| - 1], key)
  {
    var paths, before := MergedPaths(out, groups, key), MergedPaths(out, groups[..|groups| - 1], key);
    assert forall i :: 0 <= i < |before| ==> before[i] == paths[i];
  }

  /** The last group's merge reads PDFs the earlier merges left alone. */
  lemma MergeLastReads(r: Run, out: Path, groups: seq<seq<Path>>, key: Path -> string)
    requires forall i :: 0 <= i < |groups| ==> groups[i] != []
    requires groups != [] && MergeClear(r, out, groups, key)
    ensures Appended(MergeAll(r, out, groups[..|groups| - 1], key).written, r.pdfOf, groups[|groups| - 1]) ==
            Appended(r.written, r.pdfOf, groups[|groups| - 1])
  {
    var n := |groups|;
    var init, last := groups[..n - 1], groups[n - 1];
    var m := MergeAll(r, out, init, key);
    var paths := MergedPaths(out, groups, key);
    assert forall i :: 0 <= i < n - 1 ==> MergedPaths(out, init, key)[i] == paths[i];
    MergeAllKeeps(r, out, init, key);
    forall t | t in last
      ensures Stored(m.written, r.pdfOf, t) == Stored(r.written, r.pdfOf, t)
    {
      if t in r.pdfOf {
        assert r.pdfOf[t] !in paths;
      }
    }
    AppendedAgree(m.written, r.written, r.pdfOf, last);
  }

  lemma MergeContentsStep(r: Run, out: Path, groups: seq<seq<Path>>, key: Path -> string)
    requires forall i :: 0 <= i < |groups| ==> groups[i] != []
    requires groups != [] && MergeClear(r, out, groups, key)
    requires MergedFrom(MergeAll(r, out, groups[..|groups| - 1], key), r, out, groups[..|groups| - 1], key)
    ensures MergedFrom(MergeAll(r, out, groups, key), r, out, groups, key)
  {
    var n := |groups|;
    var init := groups[..n - 1];
    MergeLastReads(r, out, groups, key);
    MergeAllCreated(r, out, init, key);
    var paths := MergedPaths(out, groups, key);
    forall g | 0 <= g < n - 1
      ensures paths[g] != paths[n - 1] && groups[g] == init[g]
    {
    }
  }

  /**
   Step 2 when no merged path is another group's or a member's PDF: each
   merged file holds its group's PDFs as they were after step 1.
   */
  lemma {:induction false} MergeAllContents(r: Run, out: Path, groups: seq<seq<Path>>, key: Path -> string)
    requires forall i :: 0 <= i < |groups| ==> groups[i] != []
    requires MergeClear(r, out, groups, key)
    ensures MergedFrom(MergeAll(r, out, groups, key), r, out, groups, key)
  {
    if groups != [] {
      MergeClearInit(r, out, groups, key);
      MergeAllContents(r, out, groups[..|groups| - 1], key);
      MergeContentsStep(r, out, groups, key);
    }
  }

  /** In a run without collisions no merged path is an individual PDF. */
  lemma NotMerged(root: Path, out: Path, frags: seq<Fragment>, level: int, groups: seq<seq<Path>>, i: int)
    requires 1 <= level <= 2 && NoCollisions(root, out, frags, level)
    requires forall g :: 0 <= g < |groups| ==> groups[g] != [] && groups[g][0] in TxtPaths(root, frags)
    requires 0 <= i < |frags|
    ensures PdfPath(out, frags[i]) !in MergedPaths(out, groups, KeyOf(level))
  {
    var paths := MergedPaths(out, groups, KeyOf(level));
    forall g | 0 <= g < |groups|
      ensures paths[g] != PdfPath(out, frags[i])
    {
      var j :| 0 <= j < |frags| && TxtPaths(root, frags)[j] == groups[g][0];
      assert paths[g] == out + [FolderKey(ParentName(TxtPath(root, frags[j])), level) + ".pdf"];
    }
  }

  /** A recorded fragment path leads to its own PDF, which holds its own document. */
  lemma PdfOfMember(r: Run, root: Path, out: Path, frags: seq<Fragment>, render: Path -> Document, t: Path)
    returns (i: int)
    requires Recorded(r, root, out, frags, render)
    requires t in TxtPaths(root, frags)
    ensures 0 <= i < |frags| && t == TxtPath(root, frags[i])
    ensures t in r.pdfOf && r.pdfOf[t] == PdfPath(out, frags[i])
    ensures r.pdfOf[t] in r.written && r.written[r.pdfOf[t]] == render(t)
  {
    i :| 0 <= i < |frags| && TxtPaths(root, frags)[i] == t;
  }

  /** Each group of the plan is the elements with its key, in their order. */
  lemma PlanFilter(txts: seq<Path>, key: Path -> string)
    ensures forall g :: 0 <= g < |MergePlan(txts, key)| ==>
              MergePlan(txts, key)[g] == Filter(txts, key, RunKey(MergePlan(txts, key)[g], key))
  {
    MergePlanSpec(txts, key);
  }

  /** The plan's merged paths are all different. */
  lemma PlanPathsDistinct(out: Path, txts: seq<Path>, key: Path -> string)
    ensures Distinct(MergedPaths(out, MergePlan(txts, key), key))
  {
    MergePlanSpec(txts, key);
    MergedPathsDistinct(out, MergePlan(txts, key), key);
  }

  /** Step 2 of a run without collisions: each merged PDF holds its members' documents. */
  lemma MergedContents(r: Run, root: Path, out: Path, frags: seq<Fragment>, level: int, render: Path -> Document)
    requires 1 <= level <= 2 && NoCollisions(root, out, frags, level)
    requires Recorded(r, root, out, frags, render)
    ensures forall g :: 0 <= g < |MergePlan(TxtPaths(root, frags), KeyOf(level))| ==>
              MergedPath(out, MergePlan(TxtPaths(root, frags), KeyOf(level))[g], KeyOf(level))
                in MergeAll(r, out, MergePlan(TxtPaths(root, frags), KeyOf(level)), KeyOf(level)).written &&
              MergeAll(r, out, MergePlan(TxtPaths(root, frags), KeyOf(level)), KeyOf(level))
                .written[MergedPath(out, MergePlan(TxtPaths(root, frags), KeyOf(level))[g], KeyOf(level))] ==
              Documents(render, MergePlan(TxtPaths(root, frags), KeyOf(level))[g])
  {
    var key := KeyOf(level);
    var txts := TxtPaths(root, frags);
    var plan := MergePlan(txts, key);
    assert MergeClear(r, out, plan, key) by {
      PlanMembers(txts, key);
      PlanHeads(txts, key);
      PlanPathsDistinct(out, txts, key);
      forall g, t | 0 <= g < |plan| && t in plan[g] && t in r.pdfOf
        ensures r.pdfOf[t] !in MergedPaths(out, plan, key)
      {
        var i := PdfOfMember(r, root, out, frags, render, t);
        NotMerged(root, out, frags, level, plan, i);
      }
    }
    PlanMembers(txts, key);
    MergeAllContents(r, out, plan, key);
    forall g | 0 <= g < |plan|
      ensures Appended(r.written, r.pdfOf, plan[g]) == Documents(render, plan[g])
    {
      forall t | t in plan[g]
        ensures t in r.pdfOf && r.pdfOf[t] in r.written && r.written[r.pdfOf[t]] == render(t)
      {
        var i := PdfOfMember(r, root, out, frags, render, t);
      }
      AppendedDocuments(r.written, r.pdfOf, plan[g], render);
    }
  }

  /**
   What a run without collisions leaves behind: every fragment's PDF holds
   that fragment's document and, for a group level of 1 or 2, every merged
   PDF holds the documents of all fragments with its key, one after another
   in the order the walk found them.
   */
  lemma WrittenDocuments(root: Path, out: Path, walk: seq<WalkEntry>, level: int, render: Path -> Document)
    requires NoCollisions(root, out, Found(walk), level)
    ensures forall i :: 0 <= i < |Found(walk)| ==>
              PdfPath(out, Found(walk)[i]) in Convert(root, out, walk, level, render).written &&
              Convert(root, out, walk, level, render).written[PdfPath(out, Found(walk)[i])] == render(TxtPath(root, Found(walk)[i]))
    ensures 1 <= level <= 2 ==>
              forall g :: 0 <= g < |Plan(root, walk, level)| ==>
                MergedPath(out, Plan(root, walk, level)[g], KeyOf(level)) in Convert(root, out, walk, level, render).written &&
                Convert(root, out, walk, level, render).written[MergedPath(out, Plan(root, walk, level)[g], KeyOf(level))] ==
                  Documents(render, Filter(TxtPaths(root, Found(walk)), KeyOf(level), RunKey(Plan(root, walk, level)[g], KeyOf(level))))
  {
    var found := Found(walk);
    var r := ConvertAll(Initial, root, out, found, render);
    assert Recorded(r, root, out, found, render) by {
      ConvertAllDistinct(root, out, found, render);
    }
    if 1 <= level <= 2 {
      var key := KeyOf(level);
      var txts := TxtPaths(root, found);
      var plan := MergePlan(txts, key);
      assert plan == Plan(root, walk, level) by {
        DistinctTxtPaths(root, out, found);
        DedupDistinct(txts);
      }
      assert forall i :: 0 <= i < |found| ==> PdfPath(out, found[i]) !in MergedPaths(out, plan, key) by {
        PlanHeads(txts, key);
        forall i | 0 <= i < |found|
          ensures PdfPath(out, found[i]) !in MergedPaths(out, plan, key)
        {
          NotMerged(root, out, found, level, plan, i);
        }
      }
      MergeAllKeeps(r, out, plan, key);
      MergedContents(r, root, out, found, level, render);
      PlanFilter(txts, key);
    }
  }
}
