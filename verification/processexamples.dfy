/** The test builder of `src/processExamples.py`: many extracted tasks are
    stitched into one C++ program, each task's definitions in a namespace of
    its own and each task's body in a numbered block of `main`. `makeTests`
    builds two such programs that together hold both versions of every task. */
module ProcessExamples {
  import opened Wrappers
  import opened Text
  import opened StrFormat
  import opened Benchmark
  import opened CodeProcessing
  import opened Utils

  // ---------------------------------------------------------------------
  // Templates
  // ---------------------------------------------------------------------

  /** `namespaceTemplate`. */
  const NamespaceTemplate: seq<Piece> :=
    [Lit("namespace "), Field("namespaceName"), Lit(" {\n    "), Field("namespaceBody"), Lit("\n}\n")]

  /** `codeTemplate`. */
  const CodeTemplate: seq<Piece> :=
    [Lit("// Task "), Field("exampleNumber"), Lit("\n{\n    "), Field("usingStatement"),
     Lit("\n    "), Field("codeBody"), Lit("\n}\n")]

  /** `testTeamplate` (sic). */
  const TestTemplate: seq<Piece> :=
    [Field("includes"), Lit("\n\n"), Field("additionalDefs"), Lit("\n\nint main () {\n    "),
     Field("mainBody"), Lit("\n}\n")]

  /** The namespace of task `n`. */
  function TaskName(n: nat): (r: string)
    ensures StartsWith(r, "task") && r[4..] == NatToString(n)
  {
    "task" + NatToString(n)
  }

  /** Different tasks get different namespaces. */
  lemma TaskNamesDistinct(i: nat, j: nat)
    requires i != j
    ensures TaskName(i) != TaskName(j)
  {
    NatToStringInjective(i, j);
  }

  /** `namespaceTemplate.format(...)` spelled out. */
  lemma NamespaceTemplateFormat(env: map<string, string>)
    requires "namespaceName" in env && "namespaceBody" in env
    ensures WellFormedTemplate(NamespaceTemplate, env)
    ensures Format(NamespaceTemplate, env) == "namespace " + env["namespaceName"] + " {\n    " + env["namespaceBody"] + "\n}\n"
  {
    LetterNameIsPlain("namespaceName");
    LetterNameIsPlain("namespaceBody");
    FormatTwoFields("namespace ", "namespaceName", " {\n    ", "namespaceBody", "\n}\n", env);
  }

  /** The namespace wrapping task `n`'s definitions. */
  function NamespaceText(n: nat, defs: string): (r: string)
    ensures r == "namespace " + TaskName(n) + " {\n    " + defs + "\n}\n"
  {
    var env := map["namespaceName" := TaskName(n), "namespaceBody" := defs];
    NamespaceTemplateFormat(env);
    Format(NamespaceTemplate, env)
  }

  /** The `using` line of task `n`'s block: present exactly when the task has
      a namespace. */
  function UsingStatement(n: nat, hasNamespace: bool): string
  {
    if hasNamespace then "using namespace " + TaskName(n) + ";" else ""
  }

  /** `codeTemplate.format(...)` spelled out. */
  lemma CodeTemplateFormat(env: map<string, string>)
    requires "exampleNumber" in env && "usingStatement" in env && "codeBody" in env
    ensures WellFormedTemplate(CodeTemplate, env)
    ensures Format(CodeTemplate, env)
         == "// Task " + env["exampleNumber"] + "\n{\n    " + env["usingStatement"] + "\n    " + env["codeBody"] + "\n}\n"
  {
    LetterNameIsPlain("exampleNumber");
    LetterNameIsPlain("usingStatement");
    LetterNameIsPlain("codeBody");
    FormatThreeFields("// Task ", "exampleNumber", "\n{\n    ", "usingStatement", "\n    ", "codeBody", "\n}\n", env);
  }

  /** The block of `main` that runs task `n`. */
  function CodeBlock(n: nat, usingStatement: string, body: string): (r: string)
    ensures r == "// Task " + NatToString(n) + "\n{\n    " + usingStatement + "\n    " + body + "\n}\n"
  {
    var env := map["exampleNumber" := NatToString(n), "usingStatement" := usingStatement, "codeBody" := body];
    CodeTemplateFormat(env);
    Format(CodeTemplate, env)
  }

  /** `testTeamplate.format(...)` spelled out. */
  lemma TestTemplateFormat(env: map<string, string>)
    requires "includes" in env && "additionalDefs" in env && "mainBody" in env
    ensures WellFormedTemplate(TestTemplate, env)
    ensures Format(TestTemplate, env)
         == env["includes"] + "\n\n" + env["additionalDefs"] + "\n\nint main () {\n    " + env["mainBody"] + "\n}\n"
  {
    LetterNameIsPlain("includes");
    LetterNameIsPlain("additionalDefs");
    LetterNameIsPlain("mainBody");
    FormatThreeFieldsFirst("includes", "\n\n", "additionalDefs", "\n\nint main () {\n    ", "mainBody", "\n}\n", env);
  }

  // ---------------------------------------------------------------------
  // renderCode and renderTest
  // ---------------------------------------------------------------------

  /** `renderCode`: the task's namespace (`None` when it has no definitions)
      and its block, which opens the namespace when there is one. */
  function RenderCode(n: nat, code: Code): (r: (Option<string>, string))
    ensures r.0.Some? <==> |code.additionalDefs| > 0
    ensures r.0.Some? ==> r.0.value == NamespaceText(n, code.additionalDefs)
    ensures r.1 == CodeBlock(n, UsingStatement(n, r.0.Some?), code.body)
  {
    var namespace := if |code.additionalDefs| > 0 then Some(NamespaceText(n, code.additionalDefs)) else None;
    (namespace, CodeBlock(n, UsingStatement(n, namespace.Some?), code.body))
  }

  /** A block opens with `using namespace taskN;` exactly when the task's
      namespace was emitted. */
  lemma RenderCodeUsingIffNamespace(n: nat, code: Code)
    ensures var head := "// Task " + NatToString(n) + "\n{\n    ";
      (StartsWith(RenderCode(n, code).1, head + UsingStatement(n, true))
       <==> RenderCode(n, code).0.Some?)
  {
    var head := "// Task " + NatToString(n) + "\n{\n    ";
    var body := code.body;
    if RenderCode(n, code).0.Some? {
      StartsWithAppended(head + UsingStatement(n, true), "\n    ", body, "\n}\n");
    } else {
      assert head + "" == head;
      NotStartsWithDiverging(head, "\n    ", body, "\n}\n", UsingStatement(n, true));
    }
  }

  /** `enumerate(xs, start=start)`. */
  function Enumerate<T>(xs: seq<T>, start: nat): (r: seq<(nat, T)>)
    ensures |r| == |xs| && forall i :: 0 <= i < |xs| ==> r[i] == (start + i, xs[i])
  {
    seq(|xs|, i requires 0 <= i < |xs| => (start + i, xs[i]))
  }

  /** The two halves of `zip(*pairs)`. */
  function Firsts<A, B>(ps: seq<(A, B)>): (r: seq<A>)
    ensures |r| == |ps| && forall i :: 0 <= i < |ps| ==> r[i] == ps[i].0
  {
    seq(|ps|, i requires 0 <= i < |ps| => ps[i].0)
  }

  function Seconds<A, B>(ps: seq<(A, B)>): (r: seq<B>)
    ensures |r| == |ps| && forall i :: 0 <= i < |ps| ==> r[i] == ps[i].1
  {
    seq(|ps|, i requires 0 <= i < |ps| => ps[i].1)
  }

  /** `filter(lambda x: x is not None, xs)`. */
  function FilterSome<T>(xs: seq<Option<T>>): (r: seq<T>)
    ensures |r| <= |xs|
  {
    if |xs| == 0 then []
    else (if xs[0].Some? then [xs[0].value] else []) + FilterSome(xs[1..])
  }

  /** The namespaces the test holds, described task by task: one for each
      task with definitions, numbered by the task's position, in task order. */
  function EmittedNamespaces(tasks: seq<Code>, start: nat): seq<string>
    decreases |tasks|
  {
    if |tasks| == 0 then []
    else (if |tasks[0].additionalDefs| > 0 then [NamespaceText(start, tasks[0].additionalDefs)] else [])
         + EmittedNamespaces(tasks[1..], start + 1)
  }

  /** The blocks of `main`, described task by task: block `i` runs task
      `start + i`. */
  function TaskBlocks(tasks: seq<Code>, start: nat): (r: seq<string>)
    ensures |r| == |tasks|
    ensures forall i :: 0 <= i < |tasks| ==> StartsWith(r[i], "// Task " + NatToString(start + i) + "\n{\n    ")
  {
    seq(|tasks|, i requires 0 <= i < |tasks| =>
      CodeBlock(start + i, UsingStatement(start + i, |tasks[i].additionalDefs| > 0), tasks[i].body))
  }

  /** Filtering the namespaces `renderCode` returned keeps exactly the
      emitted ones, in task order. */
  lemma {:induction false} FilterSomeNamespaces(xs: seq<Option<string>>, tasks: seq<Code>, start: nat)
    requires |xs| == |tasks|
    requires forall i :: 0 <= i < |xs| ==> xs[i] == RenderCode(start + i, tasks[i]).0
    ensures FilterSome(xs) == EmittedNamespaces(tasks, start)
    decreases |tasks|
  {
    if |tasks| > 0 {
      assert xs[0] == RenderCode(start, tasks[0]).0;
      forall i | 0 <= i < |xs[1..]| ensures xs[1..][i] == RenderCode(start + 1 + i, tasks[1..][i]).0 {
        assert xs[1..][i] == xs[i + 1];
      }
      FilterSomeNamespaces(xs[1..], tasks[1..], start + 1);
    }
  }

  /** `zip(*starmap(renderCode, enumerate(tasks, start=1)))`: the namespaces
      left after filtering and the blocks are the ones described task by
      task. */
  lemma RenderedParts(tasks: seq<Code>)
    ensures var rendered := Starmap(RenderCode, Enumerate(tasks, 1));
      && |rendered| == |tasks|
      && FilterSome(Firsts(rendered)) == EmittedNamespaces(tasks, 1)
      && Seconds(rendered) == TaskBlocks(tasks, 1)
  {
    var rendered := Starmap(RenderCode, Enumerate(tasks, 1));
    var blocks := TaskBlocks(tasks, 1);
    forall i | 0 <= i < |tasks| ensures Seconds(rendered)[i] == blocks[i] {
      assert rendered[i] == RenderCode(1 + i, tasks[i]);
    }
    assert Seconds(rendered) == blocks;
    forall i | 0 <= i < |tasks| ensures Firsts(rendered)[i] == RenderCode(1 + i, tasks[i]).0 {
      assert rendered[i] == RenderCode(1 + i, tasks[i]);
    }
    FilterSomeNamespaces(Firsts(rendered), tasks, 1);
  }

  /** Every include of every task, in task order, repeats kept. */
  function AllIncludes(tasks: seq<Code>): seq<string>
    decreases |tasks|
  {
    if |tasks| == 0 then [] else tasks[0].includes + AllIncludes(tasks[1..])
  }

  /** `order` lists the distinct elements of `xs`, each once: it stands for
      the order in which Python happens to iterate `set(xs)`. */
  predicate EnumeratesSet(order: seq<string>, xs: seq<string>) {
    && (forall i, j :: 0 <= i < j < |order| ==> order[i] != order[j])
    && (forall i :: 0 <= i < |order| ==> order[i] in xs)
    && (forall i :: 0 <= i < |xs| ==> xs[i] in order)
  }

  datatype RenderError = EmptyTaskList   // `zip(*[])` has nothing to unpack

  /** `renderTest`: the includes of all tasks, then the emitted namespaces,
      then `main` with one block per task. */
  function RenderTest(tasks: seq<Code>, includeOrder: seq<string>): (r: Result<string, RenderError>)
    requires EnumeratesSet(includeOrder, AllIncludes(tasks))
    ensures r.Err? <==> |tasks| == 0
    ensures r.Ok? ==> r.value == Join("\n", includeOrder) + "\n\n" + Join("\n", EmittedNamespaces(tasks, 1))
                                 + "\n\nint main () {\n    " + Join("\n\n", TaskBlocks(tasks, 1)) + "\n}\n"
  {
    var rendered := Starmap(RenderCode, Enumerate(tasks, 1));
    RenderedParts(tasks);
    if |rendered| == 0 then Err(EmptyTaskList)
    else
      var namespaces, codeBlocks := Firsts(rendered), Seconds(rendered);
      var env := map["includes" := Join("\n", includeOrder),
                     "additionalDefs" := Join("\n", FilterSome(namespaces)),
                     "mainBody" := Join("\n\n", codeBlocks)];
      TestTemplateFormat(env);
      Ok(Format(TestTemplate, env))
  }

  // ---------------------------------------------------------------------
  // makeTests
  // ---------------------------------------------------------------------

  /** `getattr(example, choices[c])`: 0 picks the slow version, 1 the fast. */
  function Version(e: Example, choice: nat): string
    requires choice <= 1
  {
    if choice == 0 then e.codeSlow else e.codeFast
  }

  /** `int(not choice)`. */
  function Complement(choice: nat): (r: nat)
    requires choice <= 1
    ensures r <= 1 && r + choice == 1
  {
    if choice == 0 then 1 else 0
  }

  /** The two tests together hold both versions of the example. */
  lemma ComplementaryVersions(e: Example, choice: nat)
    requires choice <= 1
    ensures multiset{Version(e, choice), Version(e, Complement(choice))} == multiset{e.codeSlow, e.codeFast}
  {
  }

  /** `extract(stripComments(code))`: a program without comments is extracted
      as it stands, and one whose `main` survives comment removal is found. */
  function PrepareTask(code: string): (r: Result<Code, ExtractError>)
    ensures NoOccurrence(code, CommentPrefix) ==> r == Extract(code)
    ensures r.Err? <==> !Contains(StripComments(code), MainSignature)
    ensures r.Ok? ==> NoOccurrence(r.value.additionalDefs, IncludePrefix)
  {
    if NoOccurrence(code, CommentPrefix) then StripCommentsNoComment(code); Extract(StripComments(code))
    else Extract(StripComments(code))
  }

  /** The version choices and extracted tasks for one example. */
  datatype Pick = Pick(choice1: nat, task1: Code, choice2: nat, task2: Code)

  /** The draw `random.binomialvariate(n=1, p=0.5)` returned for an example. */
  function Choice(draw: bool): (c: nat)
    ensures c <= 1 && (c == 1 <==> draw)
  {
    if draw then 1 else 0
  }

  /** Why the loop stops: the assertion on the key fails, or a version has no
      `int main` (`extract` fails). */
  datatype MakeTestsError = KeyMismatch(number: nat, key: string) | NoMain(number: nat)

  type Preparer = string -> Result<Code, ExtractError>

  /** The example numbered `number` stops the loop. */
  predicate Fails(prepare: Preparer, e: Example, draw: bool, number: nat)
  {
    || e.key != NatToString(number)
    || prepare(Version(e, Choice(draw))).Err?
    || prepare(Version(e, Complement(Choice(draw)))).Err?
  }

  /** `p` is what the loop keeps for example `e` under `draw`: the drawn
      version first, the other one second, both prepared. */
  predicate PickOf(prepare: Preparer, e: Example, draw: bool, p: Pick)
  {
    && p.choice1 == Choice(draw)
    && p.choice2 == Complement(p.choice1)
    && prepare(Version(e, p.choice1)) == Ok(p.task1)
    && prepare(Version(e, p.choice2)) == Ok(p.task2)
  }

  /** The loop of `makeTests` over the examples numbered from `number`, with
      `prepare` for `extract(stripComments(...))`. */
  function PickTasks(prepare: Preparer, examples: seq<Example>, draws: seq<bool>, number: nat)
    : (r: Result<seq<Pick>, MakeTestsError>)
    requires |draws| == |examples|
    ensures r.Ok? ==> |r.value| == |examples|
    ensures r.Err? ==> number <= r.error.number < number + |examples|
    decreases |examples|
  {
    if |examples| == 0 then Ok([])
    else
      var e := examples[0];
      if Fails(prepare, e, draws[0], number) then
        // the key is checked before either version is extracted
        Err(if e.key != NatToString(number) then KeyMismatch(number, e.key) else NoMain(number))
      else
        var c1 := Choice(draws[0]);
        var c2 := Complement(c1);
        var rest := PickTasks(prepare, examples[1..], draws[1..], number + 1);
        if rest.Err? then Err(rest.error)
        else Ok([Pick(c1, prepare(Version(e, c1)).value, c2, prepare(Version(e, c2)).value)] + rest.value)
  }

  /** A completed loop kept one pick per example, made as the draw says,
      and no example failed. */
  lemma {:induction false} PickTasksOk(prepare: Preparer, examples: seq<Example>, draws: seq<bool>, number: nat)
    requires |draws| == |examples|
    requires PickTasks(prepare, examples, draws, number).Ok?
    ensures var picks := PickTasks(prepare, examples, draws, number).value;
      forall i :: 0 <= i < |examples| ==>
        PickOf(prepare, examples[i], draws[i], picks[i]) && !Fails(prepare, examples[i], draws[i], number + i)
    decreases |examples|
  {
    if |examples| > 0 {
      var picks := PickTasks(prepare, examples, draws, number).value;
      var rest := PickTasks(prepare, examples[1..], draws[1..], number + 1);
      PickTasksOk(prepare, examples[1..], draws[1..], number + 1);
      assert picks[1..] == rest.value;
      forall i | 1 <= i < |examples|
        ensures PickOf(prepare, examples[i], draws[i], picks[i]) && !Fails(prepare, examples[i], draws[i], number + i)
      {
        assert examples[i] == examples[1..][i - 1] && draws[i] == draws[1..][i - 1];
        assert picks[i] == rest.value[i - 1];
      }
    }
  }

  /** A loop that stopped names the first example that fails. */
  lemma {:induction false} PickTasksErr(prepare: Preparer, examples: seq<Example>, draws: seq<bool>, number: nat)
    requires |draws| == |examples|
    requires PickTasks(prepare, examples, draws, number).Err?
    ensures var k := PickTasks(prepare, examples, draws, number).error.number - number;
      && 0 <= k < |examples|
      && Fails(prepare, examples[k], draws[k], number + k)
      && forall i :: 0 <= i < k ==> !Fails(prepare, examples[i], draws[i], number + i)
    decreases |examples|
  {
    var r := PickTasks(prepare, examples, draws, number);
    if Fails(prepare, examples[0], draws[0], number) {
      PickTasksFirstFails(prepare, examples, draws, number);
    } else {
      PickTasksPassesFirst(prepare, examples, draws, number);
      PickTasksErr(prepare, examples[1..], draws[1..], number + 1);
      ShiftFails(prepare, examples, draws, number, r.error.number - number);
    }
  }

  lemma PickTasksFirstFails(prepare: Preparer, examples: seq<Example>, draws: seq<bool>, number: nat)
    requires |draws| == |examples| > 0 && Fails(prepare, examples[0], draws[0], number)
    ensures PickTasks(prepare, examples, draws, number).Err?
    ensures PickTasks(prepare, examples, draws, number).error.number == number
  {
  }

  lemma PickTasksPassesFirst(prepare: Preparer, examples: seq<Example>, draws: seq<bool>, number: nat)
    requires |draws| == |examples| > 0 && !Fails(prepare, examples[0], draws[0], number)
    ensures var r := PickTasks(prepare, examples, draws, number);
      var rest := PickTasks(prepare, examples[1..], draws[1..], number + 1);
      r.Err? == rest.Err? && (r.Err? ==> r.error == rest.error)
  {
  }

  /** The first-failure facts of the rest of the loop, moved back by one example. */
  lemma ShiftFails(prepare: Preparer, examples: seq<Example>, draws: seq<bool>, number: nat, k: nat)
    requires |draws| == |examples| && 1 <= k < |examples|
    requires !Fails(prepare, examples[0], draws[0], number)
    requires Fails(prepare, examples[1..][k - 1], draws[1..][k - 1], number + 1 + (k - 1))
    requires forall i :: 0 <= i < k - 1 ==> !Fails(prepare, examples[1..][i], draws[1..][i], number + 1 + i)
    ensures Fails(prepare, examples[k], draws[k], number + k)
    ensures forall i :: 0 <= i < k ==> !Fails(prepare, examples[i], draws[i], number + i)
  {
    assert examples[k] == examples[1..][k - 1] && draws[k] == draws[1..][k - 1];
    forall i | 1 <= i < k ensures !Fails(prepare, examples[i], draws[i], number + i) {
      assert examples[i] == examples[1..][i - 1] && draws[i] == draws[1..][i - 1];
    }
  }

  /** The loop fails exactly when some example fails. */
  lemma PickTasksFailsIff(prepare: Preparer, examples: seq<Example>, draws: seq<bool>, number: nat)
    requires |draws| == |examples|
    ensures PickTasks(prepare, examples, draws, number).Err?
        <==> exists i :: 0 <= i < |examples| && Fails(prepare, examples[i], draws[i], number + i)
  {
    var r := PickTasks(prepare, examples, draws, number);
    if r.Err? {
      PickTasksErr(prepare, examples, draws, number);
      var i := r.error.number - number;
      assert 0 <= i < |examples| && Fails(prepare, examples[i], draws[i], number + i);
    } else {
      PickTasksOk(prepare, examples, draws, number);
    }
  }

  /** One test file: its info record and the tasks it runs. */
  datatype TestPlan = TestPlan(info: TestInfo, tasks: seq<Code>)

  /** The plan of test 1 (`second == false`) or test 2 from the picks. */
  function PlanOf(picks: seq<Pick>, second: bool): (p: TestPlan)
    ensures p.info.testFile == (if second then "main2.cpp" else "main1.cpp")
    ensures |p.info.choices| == |p.tasks| == |picks|
    ensures forall i :: 0 <= i < |picks| ==>
      && p.info.choices[i] == (if second then picks[i].choice2 else picks[i].choice1)
      && p.tasks[i] == (if second then picks[i].task2 else picks[i].task1)
  {
    var file := if second then "main2.cpp" else "main1.cpp";
    TestPlan(TestInfo(file, seq(|picks|, i requires 0 <= i < |picks| =>
                               if second then picks[i].choice2 as int else picks[i].choice1 as int)),
             seq(|picks|, i requires 0 <= i < |picks| => if second then picks[i].task2 else picks[i].task1))
  }

  /** `makeTests` up to rendering: the plans of the two test files. `draws`
      stands for the seeded random draws, one per example; `prepare` is
      `PrepareTask` in the pipeline. */
  function MakeTests(prepare: Preparer, examples: seq<Example>, draws: seq<bool>): (r: Result<(TestPlan, TestPlan), MakeTestsError>)
    requires |draws| == |examples|
    ensures r.Ok? ==> (
      && r.value.0.info.testFile == "main1.cpp" && r.value.1.info.testFile == "main2.cpp"
      && |r.value.0.tasks| == |r.value.1.tasks| == |examples|
      && |r.value.0.info.choices| == |r.value.1.info.choices| == |examples|
      && forall i :: 0 <= i < |examples| ==>
        && r.value.0.info.choices[i] == Choice(draws[i])
        && r.value.1.info.choices[i] + r.value.0.info.choices[i] == 1
        && prepare(Version(examples[i], Choice(draws[i]))) == Ok(r.value.0.tasks[i])
        && prepare(Version(examples[i], Complement(Choice(draws[i])))) == Ok(r.value.1.tasks[i]))
    ensures r.Err? ==> (
      && 1 <= r.error.number <= |examples|
      && Fails(prepare, examples[r.error.number - 1], draws[r.error.number - 1], r.error.number)
      && forall i :: 0 <= i < r.error.number - 1 ==> !Fails(prepare, examples[i], draws[i], i + 1))
  {
    var picks := PickTasks(prepare, examples, draws, 1);
    if picks.Err? then PickTasksErr(prepare, examples, draws, 1); Err(picks.error)
    else PickTasksOk(prepare, examples, draws, 1); Ok((PlanOf(picks.value, false), PlanOf(picks.value, true)))
  }
}
