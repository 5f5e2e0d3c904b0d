/**
 * The batch route rewriter (fix_api_routes.py). For each listed route file it
 *  1. inserts `const { id } = await params` (for a path containing `[id]`)
 *     unless that text already occurs in the file, at every place where a
 *     handler body opens as `) {\n` directly followed by `  try {`;
 *  2. does the same for `const { vin } = await params` and `[vin]`,
 *     testing the text produced by step 1;
 *  3. replaces every `params.id` by `id`, and then every `params.vin` by `vin`.
 * Both regular expressions of the script match one fixed string, so each
 * `re.sub` is `Replace.ReplaceAll`.
 */
module RouteRewrite {
  import opened Text
  import opened Replace

  /** The two path parameters the rewriter knows about. */
  datatype Binding = Id | Vin

  function Name(b: Binding): string {
    match b
    case Id => "id"
    case Vin => "vin"
  }

  /** The declaration whose presence anywhere in the file closes the insertion gate. */
  function Declaration(b: Binding): string {
    "const { " + Name(b) + " } = await params"
  }

  /** The path fragment that selects the binding, e.g. `[id]`. */
  function Marker(b: Binding): string {
    "[" + Name(b) + "]"
  }

  /** The direct access that the reference rewrite removes, e.g. `params.id`. */
  function DirectAccess(b: Binding): string {
    "params." + Name(b)
  }

  /** First group of the anchor: the end of a handler signature. */
  const BodyOpen: string := ") {\n"
  /** Second group of the anchor: the start of the handler's try block. */
  const TryOpen: string := "  try {"
  /** The text matched by the regular expression `(\) \{\n)(  try \{)`. */
  const Anchor: string := BodyOpen + TryOpen

  /** What one anchor becomes: both groups kept, the declaration line between them. */
  function Inserted(b: Binding): string {
    BodyOpen + "  " + Declaration(b) + "\n" + TryOpen
  }

  /** The `re.sub` of the anchor (lines 22-26 and 29-33): every anchor gets the declaration. */
  function InsertDeclaration(content: string, b: Binding): string {
    ReplaceAll(content, Anchor, Inserted(b))
  }

  /** The gated insertion of lines 21-26 (and 28-33). */
  function DeclarationStep(path: string, content: string, b: Binding): string {
    if !Contains(content, Declaration(b)) && Contains(path, Marker(b)) then
      InsertDeclaration(content, b)
    else
      content
  }

  /** The unconditional `re.sub` of lines 36 and 39. */
  function RewriteReferences(content: string, b: Binding): string {
    ReplaceAll(content, DirectAccess(b), Name(b))
  }

  /** The text written back for one file (lines 20-39). */
  function FixFile(path: string, content: string): string {
    var afterId := DeclarationStep(path, content, Id);
    var afterVin := DeclarationStep(path, afterId, Vin);
    RewriteReferences(RewriteReferences(afterVin, Id), Vin)
  }

  // ---------------------------------------------------------------------
  // Declaration insertion

  /** The anchor and its replacement have the shape `Replace.Consuming` asks for. */
  lemma AnchorIsConsumed(b: Binding)
    ensures Consuming(Anchor, Inserted(b))
  {
    var rep := Inserted(b);
    assert Anchor[1..] == BodyOpen[1..] + TryOpen;
    assert rep[1..] == BodyOpen[1..] + "  " + Declaration(b) + "\n" + TryOpen;
    assert ')' !in Declaration(b);
    assert rep[..|Anchor|][6] == Declaration(b)[0] == 'c';
    assert Anchor[6] == TryOpen[2] == 't';
  }

  /** The declaration text stands inside the inserted text. */
  lemma InsertedContainsDeclaration(b: Binding)
    ensures Contains(Inserted(b), Declaration(b))
  {
    var d := Declaration(b);
    assert Inserted(b)[6..6 + |d|] == d;
    assert MatchAt(Inserted(b), d, 6);
  }

  /** Without an anchor the insertion returns the text character for character. */
  lemma AnchorAbsentUnchanged(content: string, b: Binding)
    requires !Contains(content, Anchor)
    ensures InsertDeclaration(content, b) == content
  {
    ReplaceAbsent(content, Anchor, Inserted(b));
  }

  /**
   * Every anchor is consumed: after an insertion no site matches the
   * anchor, so no later insertion (of either binding) can fire.
   */
  lemma InsertionConsumesAnchors(content: string, b: Binding)
    ensures !Contains(InsertDeclaration(content, b), Anchor)
  {
    AnchorIsConsumed(b);
    ReplaceLeavesNoMatch(content, Anchor, Inserted(b));
  }

  /** A second insertion, of the same or the other binding, changes nothing. */
  lemma SecondInsertionNoOp(content: string, first: Binding, second: Binding)
    ensures InsertDeclaration(InsertDeclaration(content, first), second)
         == InsertDeclaration(content, first)
  {
    InsertionConsumesAnchors(content, first);
    AnchorAbsentUnchanged(InsertDeclaration(content, first), second);
  }

  /**
   * The leftmost anchor receives the declaration between its two groups,
   * the text before it is kept, and insertion continues after it.
   */
  lemma InsertAtLeftmostAnchor(before: string, after: string, b: Binding)
    requires forall i :: 0 <= i < |before| ==> !MatchAt(before + Anchor + after, Anchor, i)
    ensures InsertDeclaration(before + Anchor + after, b)
         == before + BodyOpen + "  " + Declaration(b) + "\n" + TryOpen + InsertDeclaration(after, b)
  {
    ReplaceAtLeftmost(before, after, Anchor, Inserted(b));
  }

  /** A file with an anchor contains the declaration after the insertion. */
  lemma InsertionAddsDeclaration(content: string, b: Binding) returns (before: string, after: string)
    requires Contains(content, Anchor)
    ensures content == before + Anchor + after
    ensures InsertDeclaration(content, b) == before + Inserted(b) + InsertDeclaration(after, b)
    ensures Contains(InsertDeclaration(content, b), Declaration(b))
  {
    before, after := ReplaceFirstOccurrence(content, Anchor, Inserted(b));
    InsertedContainsDeclaration(b);
    ContainsTransitive(InsertDeclaration(content, b), Inserted(b), Declaration(b));
  }

  /**
   * The gated step leaves the text alone when the declaration is already
   * present, when the path does not name the binding, or when there is no anchor.
   */
  lemma StepUnchanged(path: string, content: string, b: Binding)
    requires Contains(content, Declaration(b)) || !Contains(path, Marker(b)) || !Contains(content, Anchor)
    ensures DeclarationStep(path, content, b) == content
  {
    if !Contains(content, Anchor) {
      AnchorAbsentUnchanged(content, b);
    }
  }

  /** Running the gated step twice inserts nothing the second time. */
  lemma StepIdempotent(path: string, content: string, b: Binding)
    ensures DeclarationStep(path, DeclarationStep(path, content, b), b) == DeclarationStep(path, content, b)
  {
    var once := DeclarationStep(path, content, b);
    if once != content {
      InsertionConsumesAnchors(content, b);
      StepUnchanged(path, once, b);
    }
  }

  /**
   * For a path naming both `[id]` and `[vin]`, a successful id insertion
   * consumes every anchor, so the vin step that follows inserts nothing.
   */
  lemma IdInsertionBlocksVin(path: string, content: string)
    requires Contains(path, Marker(Id)) && !Contains(content, Declaration(Id)) && Contains(content, Anchor)
    ensures DeclarationStep(path, DeclarationStep(path, content, Id), Vin) == InsertDeclaration(content, Id)
  {
    InsertionConsumesAnchors(content, Id);
    StepUnchanged(path, InsertDeclaration(content, Id), Vin);
  }

  // ---------------------------------------------------------------------
  // Reference rewrite

  /** The inserted text holds no direct access, so the reference rewrite cannot match inside it. */
  lemma InsertedHasNoDirectAccess(b: Binding, r: Binding)
    ensures !Contains(Inserted(b), DirectAccess(r))
  {
    assert DirectAccess(r)[6] == '.';
    assert '.' !in Inserted(b);
    MissingCharNoMatch(Inserted(b), DirectAccess(r), '.');
  }

  /** An inserted declaration starts with `)` and ends with `s`, a newline and the try block. */
  lemma InsertedTail(b: Binding)
    ensures |Inserted(b)| >= 9 && Inserted(b)[0] == ')'
    ensures Inserted(b)[|Inserted(b)| - 9..] == "s\n  try {"
  {
    var head := BodyOpen + "  const { " + Name(b) + " } = await param";
    assert Inserted(b) == head + "s\n  try {";
  }

  /** A character missing from the last nine characters is missing from every shorter suffix. */
  lemma SuffixLacks(w: string, k: int, c: char)
    requires 9 <= |w| && |w| - 9 <= k <= |w| && c !in w[|w| - 9..]
    ensures c !in w[k..]
  {
    forall j | 0 <= j < |w[k..]| ensures w[k..][j] != c {
      assert w[k..][j] == w[|w| - 9..][k - (|w| - 9) + j];
    }
  }

  /** The edges of an inserted declaration cannot form a direct access with their neighbours. */
  lemma InsertedEdges(b: Binding, r: Binding)
    ensures |Inserted(b)| >= |DirectAccess(r)|
    ensures Inserted(b)[0] !in DirectAccess(r)[1..]
    ensures DirectAccess(r)[0] !in Inserted(b)[|Inserted(b)| - |DirectAccess(r)| + 1..]
  {
    var pat, w := DirectAccess(r), Inserted(b);
    InsertedTail(b);
    assert pat[0] == 'p' && pat[1..] == "arams." + Name(r);
    assert ')' !in pat[1..];
    assert 9 <= |pat| <= 10 && |w| >= 30;
    assert 'p' !in "s\n  try {";
    SuffixLacks(w, |w| - |pat| + 1, 'p');
  }

  /** The reference rewrite passes an inserted declaration through untouched, wherever it stands. */
  lemma RewriteKeepsInserted(x: string, y: string, b: Binding, r: Binding)
    ensures RewriteReferences(x + Inserted(b) + y, r)
         == RewriteReferences(x, r) + Inserted(b) + RewriteReferences(y, r)
  {
    var pat, w := DirectAccess(r), Inserted(b);
    InsertedEdges(b, r);
    InsertedHasNoDirectAccess(b, r);
    ReplaceKeepsBlock(x, w, y, pat, Name(r));
  }

  /** The reference rewrite never creates an anchor. */
  lemma RewriteCreatesNoAnchor(content: string, r: Binding)
    requires !Contains(content, Anchor)
    ensures !Contains(RewriteReferences(content, r), Anchor)
  {
    assert Anchor == ") {\n  try {";
    assert forall j :: 0 <= j < |Name(r)| ==> Name(r)[j] in "vind";
    ReplaceCreatesNone(content, DirectAccess(r), Name(r), Anchor);
  }

  // ---------------------------------------------------------------------
  // The whole per-file step

  /** A path naming neither binding gets no declaration: only the references are rewritten. */
  lemma NoMarkerNoInsertion(path: string, content: string)
    requires !Contains(path, Marker(Id)) && !Contains(path, Marker(Vin))
    ensures FixFile(path, content) == RewriteReferences(RewriteReferences(content, Id), Vin)
  {
  }

  /**
   * A file whose path names the binding, that lacks the declaration and has
   * an anchor, ends up holding the inserted declaration line intact (for
   * `vin`, provided the id step did not fire first).
   */
  lemma FixFileInsertsDeclaration(path: string, content: string, b: Binding)
    requires Contains(path, Marker(b)) && !Contains(content, Declaration(b)) && Contains(content, Anchor)
    requires b == Vin ==> !Contains(path, Marker(Id)) || Contains(content, Declaration(Id))
    ensures Contains(FixFile(path, content), Inserted(b))
    ensures Contains(FixFile(path, content), Declaration(b))
  {
    var afterId := DeclarationStep(path, content, Id);
    var afterVin := DeclarationStep(path, afterId, Vin);
    var before, after := InsertionAddsDeclaration(content, b);
    if b == Id {
      InsertionConsumesAnchors(content, Id);
      StepUnchanged(path, afterId, Vin);
    } else {
      StepUnchanged(path, content, Id);
    }
    assert afterVin == before + Inserted(b) + InsertDeclaration(after, b);
    var x, y := before, InsertDeclaration(after, b);
    RewriteKeepsInserted(x, y, b, Id);
    RewriteKeepsInserted(RewriteReferences(x, Id), RewriteReferences(y, Id), b, Vin);
    var out := FixFile(path, content);
    assert out == RewriteReferences(RewriteReferences(x, Id), Vin) + Inserted(b)
                + RewriteReferences(RewriteReferences(y, Id), Vin);
    assert MatchAt(Inserted(b), Inserted(b), 0);
    ContainsInfix(RewriteReferences(RewriteReferences(x, Id), Vin), Inserted(b),
                  RewriteReferences(RewriteReferences(y, Id), Vin), Inserted(b));
    InsertedContainsDeclaration(b);
    ContainsTransitive(out, Inserted(b), Declaration(b));
  }

  /** Nothing is left to insert for the binding: the path does not name it, it is declared, or no anchor remains. */
  predicate Settled(path: string, content: string, b: Binding) {
    !Contains(path, Marker(b)) || Contains(content, Declaration(b)) || !Contains(content, Anchor)
  }

  /** The migrated state: nothing to insert for either binding and no direct access left. */
  predicate Migrated(path: string, content: string) {
    && Settled(path, content, Id)
    && Settled(path, content, Vin)
    && !Contains(content, DirectAccess(Id))
    && !Contains(content, DirectAccess(Vin))
  }

  /** An already migrated file is written back character for character. */
  lemma MigratedIsFixpoint(path: string, content: string)
    requires Migrated(path, content)
    ensures FixFile(path, content) == content
  {
    StepUnchanged(path, content, Id);
    StepUnchanged(path, content, Vin);
    ReplaceAbsent(content, DirectAccess(Id), Name(Id));
    ReplaceAbsent(content, DirectAccess(Vin), Name(Vin));
  }

  /**
   * A file holding neither declaration is migrated by one run, and a second
   * run changes nothing, provided the first run leaves no direct access
   * (which the script itself does not guarantee, see `NestedAccessSurvives`).
   */
  lemma FirstRunMigrates(path: string, content: string)
    requires !Contains(content, Declaration(Id)) && !Contains(content, Declaration(Vin))
    requires !Contains(FixFile(path, content), DirectAccess(Id))
    requires !Contains(FixFile(path, content), DirectAccess(Vin))
    ensures Migrated(path, FixFile(path, content))
    ensures FixFile(path, FixFile(path, content)) == FixFile(path, content)
  {
    var afterId := DeclarationStep(path, content, Id);
    var afterVin := DeclarationStep(path, afterId, Vin);
    var out := FixFile(path, content);
    if Contains(path, Marker(Id)) || Contains(path, Marker(Vin)) {
      if !Contains(content, Anchor) {
        StepUnchanged(path, content, Id);
        StepUnchanged(path, content, Vin);
      } else if Contains(path, Marker(Id)) {
        InsertionConsumesAnchors(content, Id);
        StepUnchanged(path, afterId, Vin);
      } else {
        StepUnchanged(path, content, Id);
        InsertionConsumesAnchors(content, Vin);
      }
      assert !Contains(afterVin, Anchor);
      RewriteCreatesNoAnchor(afterVin, Id);
      RewriteCreatesNoAnchor(RewriteReferences(afterVin, Id), Vin);
    }
    MigratedIsFixpoint(path, out);
  }

  /** Text without a `v` holds no `params.vin`, so the vin rewrite leaves it alone. */
  lemma VinRewriteAbsent(s: string)
    requires 'v' !in s
    ensures RewriteReferences(s, Vin) == s
  {
    assert DirectAccess(Vin)[7] == 'v';
    MissingCharNoMatch(s, DirectAccess(Vin), 'v');
    ReplaceAbsent(s, DirectAccess(Vin), Name(Vin));
  }

  /** With the id declaration present and no `[vin]` in the path, both gates are shut. */
  lemma GatesShut(path: string, content: string)
    requires Contains(content, Declaration(Id)) && !Contains(path, Marker(Vin))
    ensures FixFile(path, content) == RewriteReferences(RewriteReferences(content, Id), Vin)
  {
  }

  /** The id rewrite of the nested access joins its outer `params.` to the leftover `id`. */
  lemma NestedRewrite()
    ensures RewriteReferences("params.params.idid", Id) == "params.idid"
  {
    var pat := DirectAccess(Id);
    assert pat == "params.id";
    var s := "params.params.idid";
    assert s == "params." + pat + "id";
    forall i | 0 <= i < 7 ensures !MatchAt(s, pat, i) {
      if i == 0 {
        assert s[..9][7] == 'p';
      } else {
        assert s[i..i + 9][0] == s[i] && s[i] in "arams.";
      }
    }
    ReplaceAtLeftmost("params.", "id", pat, "id");
    assert ReplaceAll("id", pat, "id") == "id";
  }

  /** The id rewrite of a plain access at the start of the text. */
  lemma PlainRewrite()
    ensures RewriteReferences("params.idid", Id) == "idid"
  {
    var pat := DirectAccess(Id);
    assert "params.idid" == [] + pat + "id";
    ReplaceAtLeftmost([], "id", pat, "id");
    assert ReplaceAll("id", pat, "id") == "id";
  }

  /**
   * The reference rewrite can build a new direct access out of a nested one,
   * so a second run is not a no-op: `params.params.idid` becomes
   * `params.idid` and then `idid`.
   */
  lemma NestedAccessSurvives()
    ensures FixFile("", "params.params.idid") == "params.idid"
    ensures Contains("params.idid", DirectAccess(Id))
    ensures FixFile("", "params.idid") == "idid"
  {
    NoMarkerNoInsertion("", "params.params.idid");
    NoMarkerNoInsertion("", "params.idid");
    NestedRewrite();
    PlainRewrite();
    VinRewriteAbsent("params.idid");
    VinRewriteAbsent("idid");
    assert MatchAt("params.idid", DirectAccess(Id), 0);
  }

  /** A route of the job list that names `[id]` and not `[vin]`, used by `GateCanBeDefeated`. */
  const TrapPath: string := "app/api/repairs/[id]/route.ts"

  /** The id rewrite turns the trailing `params.id` of the trap text into `id`. */
  lemma TrapRewrite()
    ensures RewriteReferences(Anchor + "const { id } = await params.id", Id) == Anchor + "const { id } = await id"
  {
    var pat := DirectAccess(Id);
    var a := Anchor + "const { id } = await ";
    assert Anchor + "const { id } = await params.id" == a + pat + [];
    assert a == ") {\n  try {const { id } = await ";
    NoMatchStartsIn(a, pat + [], pat);
    ReplaceAtLeftmost(a, [], pat, "id");
    assert ReplaceAll([], pat, "id") == [];
  }

  /** The trap text holds the id declaration, right after its anchor. */
  lemma TrapHasDeclaration()
    ensures Contains(Anchor + "const { id } = await params.id", Declaration(Id))
  {
    var content := Anchor + "const { id } = await params.id";
    assert content == Anchor + Declaration(Id) + ".id";
    assert content[|Anchor|..|Anchor| + |Declaration(Id)|] == Declaration(Id);
    assert MatchAt(content, Declaration(Id), |Anchor|);
  }

  /** The trap path does not name `[vin]`. */
  lemma TrapPathLacksVin()
    ensures !Contains(TrapPath, Marker(Vin))
  {
    assert Marker(Vin)[1] == 'v';
    assert 'v' !in TrapPath;
    MissingCharNoMatch(TrapPath, Marker(Vin), 'v');
  }

  /** The rewritten trap text has no `v`, so the vin rewrite keeps it. */
  lemma TrapVinRewrite()
    ensures RewriteReferences(Anchor + "const { id } = await id", Vin) == Anchor + "const { id } = await id"
  {
    var t := Anchor + "const { id } = await id";
    assert t == BodyOpen + TryOpen + "const { id }" + " = await id";
    assert 'v' !in BodyOpen && 'v' !in TryOpen;
    assert 'v' !in "const { id }" && 'v' !in " = await id";
    VinRewriteAbsent(t);
  }

  /** The first run on a file whose declaration is followed by `.id`: no insertion, the access is rewritten. */
  lemma TrapFirstRun()
    ensures FixFile(TrapPath, Anchor + "const { id } = await params.id") == Anchor + "const { id } = await id"
  {
    TrapHasDeclaration();
    TrapPathLacksVin();
    GatesShut(TrapPath, Anchor + "const { id } = await params.id");
    TrapRewrite();
    TrapVinRewrite();
  }

  /** The second run on that file finds the gate open and an anchor, and inserts a declaration. */
  lemma TrapSecondRun()
    ensures FixFile(TrapPath, Anchor + "const { id } = await id") != Anchor + "const { id } = await id"
  {
    var once := Anchor + "const { id } = await id";
    assert TrapPath[16..20] == Marker(Id);
    assert MatchAt(TrapPath, Marker(Id), 16);
    assert Declaration(Id)[21] == 'p';
    assert 'p' !in once;
    MissingCharNoMatch(once, Declaration(Id), 'p');
    assert once[..|Anchor|] == Anchor;
    assert MatchAt(once, Anchor, 0);
    FixFileInsertsDeclaration(TrapPath, once, Id);
    assert Inserted(Id)[27] == 'p';
    MissingCharNoMatch(once, Inserted(Id), 'p');
  }

  /**
   * The presence gate looks for the declaration before the references are
   * rewritten, and the rewrite can destroy what it found: a file holding
   * `const { id } = await params.id` passes the gate on the first run and is
   * given a declaration on the second.
   */
  lemma GateCanBeDefeated()
    ensures TrapPath in FilesToFix
    ensures var once := FixFile(TrapPath, Anchor + "const { id } = await params.id");
            FixFile(TrapPath, once) != once
  {
    assert FilesToFix[1] == TrapPath;
    TrapFirstRun();
    TrapSecondRun();
  }

  // ---------------------------------------------------------------------
  // The loop over the job list

  /** The job list of the script (lines 5-11). */
  const FilesToFix: seq<string> := [
    "app/api/vehicles/[id]/route.ts",
    "app/api/repairs/[id]/route.ts",
    "app/api/employees/[id]/route.ts",
    "app/api/nhtsa/[vin]/route.ts",
    "app/api/vehicles/vin/[vin]/route.ts"
  ]

  /** Every path appears once in the job list, so each listed file is fixed once. */
  lemma FilesToFixDistinct(p: string)
    ensures multiset(FilesToFix)[p] == if p in FilesToFix then 1 else 0
  {
  }

  /** `fix` applied `k` times in a row to the text of `path`. */
  function Repeat(fix: (string, string) -> string, path: string, content: string, k: nat): string {
    if k == 0 then content else fix(path, Repeat(fix, path, content, k - 1))
  }

  /**
   * The loop of lines 13-44 over a file system given as a map from path to
   * text, for any per-file step `fix`: a listed path that exists is read,
   * fixed and written back with the final text; a listed path that does not
   * exist is skipped; nothing else is touched and no file is created.
   */
  method RunJobs(files: map<string, string>, jobs: seq<string>, fix: (string, string) -> string)
    returns (result: map<string, string>)
    ensures result.Keys == files.Keys
    ensures forall p :: p in files ==> result[p] == Repeat(fix, p, files[p], multiset(jobs)[p])
  {
    result := files;
    var i := 0;
    while i < |jobs|
      invariant 0 <= i <= |jobs|
      invariant result.Keys == files.Keys
      invariant forall p :: p in files ==> result[p] == Repeat(fix, p, files[p], multiset(jobs[..i])[p])
    {
      var path := jobs[i];
      if path in result {
        var content := result[path];
        result := result[path := fix(path, content)];
      }
      assert jobs[..i + 1] == jobs[..i] + [path];
      i := i + 1;
    }
    assert jobs[..i] == jobs;
  }

  /** The script's run: every existing file of the job list is fixed exactly once. */
  method FixRoutes(files: map<string, string>) returns (result: map<string, string>)
    ensures result.Keys == files.Keys
    ensures forall p :: p in files ==> result[p] == if p in FilesToFix then FixFile(p, files[p]) else files[p]
  {
    result := RunJobs(files, FilesToFix, FixFile);
    forall p | p in files
      ensures result[p] == if p in FilesToFix then FixFile(p, files[p]) else files[p]
    {
      FilesToFixDistinct(p);
      assert Repeat(FixFile, p, files[p], 0) == files[p];
      assert Repeat(FixFile, p, files[p], 1) == FixFile(p, files[p]);
    }
  }
}
