/** What selectProject() decides: the interactive menu of GitHub-linked projects,
    the lookup by explicit id, and the outcome of a selection. */
module ProjectSelection {
  import opened Wrappers
  import opened PhpString
  import opened Markup

  /** One row of #__tracker_projects: project_id, title, gh_user, gh_project
      (a NULL column reads as ""). */
  datatype Project = Project(id: int, title: string, ghUser: string, ghProject: string)

  /** The exceptions the command throws, with their messages. */
  datatype Exception = AbortException(message: string) | UnexpectedValueException(message: string)

  const Aborted: Exception := AbortException("Aborted")
  const InvalidProject: Exception := AbortException("Invalid project")
  const ContainerNotSet: Exception := UnexpectedValueException("Container not set")

  /** One call of out(): the text and whether a new line follows it. */
  datatype ConsoleWrite = ConsoleWrite(text: string, newline: bool)

  /** PHP truthiness of a string: "" and "0" are false, every other string is true. */
  predicate Truthy(s: string): (b: bool)
    ensures s == [] ==> !b
    ensures s == "0" ==> !b
    ensures |s| >= 2 ==> b
  {
    s != "" && s != "0"
  }

  /** The test of line 325: both GitHub columns are truthy. */
  predicate IsLinked(p: Project): (b: bool)
    ensures b ==> p.ghUser != [] && p.ghProject != []
    ensures |p.ghUser| >= 2 && |p.ghProject| >= 2 ==> b
  {
    Truthy(p.ghUser) && Truthy(p.ghProject)
  }

  /** The GitHub-linked projects of ps, in list order: the projects the menu offers. */
  function Linked(ps: seq<Project>): (r: seq<Project>)
    ensures |r| <= |ps|
    ensures forall i :: 0 <= i < |r| ==> IsLinked(r[i]) && r[i] in ps
  {
    if ps == [] then []
    else
      var init := ps[..|ps| - 1];
      var r := Linked(init) + (if IsLinked(ps[|ps| - 1]) then [ps[|ps| - 1]] else []);
      assert forall p :: p in init ==> p in ps;
      r
  }

  /** The $checks array: each linked project, in list order, is entered under the
      next number of a counter that starts at 1. Its keys are exactly 1..k for k
      linked projects, and key n holds the n-th of them. */
  function Menu(ps: seq<Project>): (m: map<int, Project>)
    ensures Numbers(m, Linked(ps))
  {
    if ps == [] then map[]
    else
      var init, last := ps[..|ps| - 1], ps[|ps| - 1];
      var before := Menu(init);
      if IsLinked(last) then
        assert Linked(ps) == Linked(init) + [last];
        NumberedExtend(before, Linked(init), last);
        before[|Linked(init)| + 1 := last]
      else
        assert Linked(ps) == Linked(init);
        before
  }

  /** m numbers the elements of l from 1: its keys are 1..|l| and key n holds l[n - 1]. */
  ghost predicate Numbers(m: map<int, Project>, l: seq<Project>) {
    (forall n :: n in m <==> 1 <= n <= |l|) && (forall n :: n in m ==> m[n] == l[n - 1])
  }

  /** Entering p under the next number extends the numbering to l + [p]. */
  lemma NumberedExtend(m: map<int, Project>, l: seq<Project>, p: Project)
    requires Numbers(m, l)
    ensures Numbers(m[|l| + 1 := p], l + [p])
  {
  }

  /** The menu line of line 327 for the project numbered n: after the opening bold
      tag the number reads back as n, and the line ends with the project's id, a
      closing parenthesis and the title. */
  function MenuLine(n: int, p: Project): (line: string)
    ensures |line| > 5 && IntCast(line[5..]) == n
    ensures var tail := IntToString(p.id) + ") " + p.title;
      |line| >= |tail| && line[|line| - |tail|..] == tail
    ensures |line| >= |p.title| && line[|line| - |p.title|..] == p.title
  {
    var open, num, mid := "  <b>", IntToString(n), "</b> (id: ";
    var tail := IntToString(p.id) + ") " + p.title;
    var line := open + num + mid + tail;
    assert line[|open|..] == num + (mid + tail) by {
      Reassociate(open, num, mid, tail);
      DropFront(open, num + (mid + tail));
    }
    IntCastOfIntToStringBefore(n, mid + tail);
    DropFront(open + num + mid, tail);
    DropFront(IntToString(p.id) + ") ", p.title);
    line
  }

  /** The menu lines, one per linked project in list order, each under the next
      number of the counter: line n (from 0) shows number n + 1 and the n-th linked project. */
  function MenuLines(ps: seq<Project>): (lines: seq<ConsoleWrite>)
    ensures |lines| == |Linked(ps)|
    ensures forall i :: 0 <= i < |lines| ==> lines[i].newline
  {
    if ps == [] then []
    else
      var init, last := ps[..|ps| - 1], ps[|ps| - 1];
      var before := MenuLines(init);
      if IsLinked(last) then before + [ConsoleWrite(MenuLine(|Linked(init)| + 1, last), true)] else before
  }

  const MenuHeading: string := "<b>Available projects:</b>"
  const MenuPrompt: string := "<question>Select a project:</question> "

  /** The console writes before the menu lines: a blank line, the heading, a blank line. */
  function MenuHeader(): seq<ConsoleWrite> {
    [ConsoleWrite("", true), ConsoleWrite(MenuHeading, true), ConsoleWrite("", true)]
  }

  /** The console writes after the menu lines: a blank line and the prompt, with no new line. */
  function MenuFooter(): seq<ConsoleWrite> {
    [ConsoleWrite("", true), ConsoleWrite(MenuPrompt, false)]
  }

  /** Everything the interactive path writes to the console before it reads the
      answer: five fixed writes around the menu lines, every one ending its line
      except the prompt, which comes last so that the answer is typed after it. */
  function MenuScreen(ps: seq<Project>): (m: seq<ConsoleWrite>)
    ensures |m| == |Linked(ps)| + 5
    ensures m[|m| - 1] == ConsoleWrite(MenuPrompt, false)
    ensures forall i :: 0 <= i < |m| - 1 ==> m[i].newline
  {
    MenuHeader() + MenuLines(ps) + MenuFooter()
  }

  const ProcessingPrefix: string := "Processing project: "

  /** The line handed to logOut() once a project is selected: whatever the title,
      what is logged of it starts with "Processing project: ". */
  function ProcessingLine(title: string): (line: string)
    ensures ProcessingPrefix <= StripTags(line)
  {
    var tagged := "<info>" + title + "</info>";
    StripTagsTagFreePrefix(ProcessingPrefix, tagged);
    ProcessingPrefix + tagged
  }

  /** input->getInt('project', input->getInt('p')): the value of --project when given,
      else that of -p, else 0. */
  function ExplicitId(projectArg: Option<int>, pArg: Option<int>): (id: int)
    ensures projectArg.Some? ==> id == projectArg.value
    ensures projectArg.None? ==> id == (if pArg.Some? then pArg.value else 0)
    ensures id != 0 ==> Some(id) == projectArg || Some(id) == pArg
  {
    match projectArg
    case Some(v) => v
    case None => if pArg.Some? then pArg.value else 0
  }

  /** (int) trim($response): the menu number the operator typed. A blank answer
      reads as 0, and a non-zero answer starts, once trimmed, with a number. */
  function ParseResponse(response: string): (n: int)
    ensures AllTrimChars(response) ==> n == 0
    ensures n != 0 ==> StartsWithNumber(Trim(response))
  {
    assert AllTrimChars(response) ==> Trim(response) == [] by {
      if AllTrimChars(response) {
        TrimLeftPadded(response, []);
        assert response + [] == response;
      }
    }
    IntCast(Trim(response))
  }

  /** The first project of ps, in list order, whose id is id. */
  function FirstWithId(ps: seq<Project>, id: int): (r: Option<Project>)
    ensures r.Some? ==> r.value in ps && r.value.id == id
    ensures r.None? ==> forall k :: 0 <= k < |ps| ==> ps[k].id != id
  {
    if ps == [] then None
    else if ps[0].id == id then Some(ps[0])
    else FirstWithId(ps[1..], id)
  }

  /** The outcome of selectProject() once the container is set: id is the explicit
      id (0 for none), resp the parsed answer, stored the project already held by
      the command. */
  function Selection(ps: seq<Project>, id: int, resp: int, stored: Option<Project>): (r: Result<Project, Exception>)
    ensures r.Failure? ==> r.error == Aborted || r.error == InvalidProject
    ensures r.Success? && id == 0 ==> r.value in ps && IsLinked(r.value)
    ensures r.Success? && id != 0 ==> (r.value in ps && r.value.id == id) || Some(r.value) == stored
  {
    if id == 0 then
      var menu := Menu(ps);
      if resp == 0 then Failure(Aborted)
      else if resp !in menu then Failure(InvalidProject)
      else Success(menu[resp])
    else
      match FirstWithId(ps, id)
      case Some(p) => Success(p)
      case None => if stored.Some? then Success(stored.value) else Failure(InvalidProject)
  }

  /** Builds $checks and the menu lines with the running counter of lines 319-331. */
  method BuildMenu(projects: seq<Project>) returns (checks: map<int, Project>, lines: seq<ConsoleWrite>)
    ensures checks == Menu(projects)
    ensures lines == MenuLines(projects)
  {
    var cnt := 1;
    checks, lines := map[], [];
    for i := 0 to |projects|
      invariant cnt == |Linked(projects[..i])| + 1
      invariant checks == Menu(projects[..i])
      invariant lines == MenuLines(projects[..i])
    {
      assert projects[..i + 1] == projects[..i] + [projects[i]];
      MenuSnoc(projects[..i], projects[i]);
      MenuLinesSnoc(projects[..i], projects[i]);
      if IsLinked(projects[i]) {
        lines := lines + [ConsoleWrite(MenuLine(cnt, projects[i]), true)];
        checks := checks[cnt := projects[i]];
        cnt := cnt + 1;
      }
    }
    assert projects[..|projects|] == projects;
  }

  /** One more project at the end of the list is one more linked project if it is linked. */
  lemma LinkedSnoc(ps: seq<Project>, p: Project)
    ensures Linked(ps + [p]) == Linked(ps) + (if IsLinked(p) then [p] else [])
  {
    var qs := ps + [p];
    assert qs[..|qs| - 1] == ps && qs[|qs| - 1] == p;
  }

  /** One more project at the end of the list adds a menu entry under the next
      number if it is linked, and changes nothing otherwise. */
  lemma MenuSnoc(ps: seq<Project>, p: Project)
    ensures Menu(ps + [p]) == if IsLinked(p) then Menu(ps)[|Linked(ps)| + 1 := p] else Menu(ps)
  {
    var qs := ps + [p];
    assert qs[..|qs| - 1] == ps && qs[|qs| - 1] == p;
  }

  /** One more project at the end of the list adds a menu line under the next number
      if it is linked, and changes nothing otherwise. */
  lemma MenuLinesSnoc(ps: seq<Project>, p: Project)
    ensures MenuLines(ps + [p]) ==
      MenuLines(ps) + (if IsLinked(p) then [ConsoleWrite(MenuLine(|Linked(ps)| + 1, p), true)] else [])
  {
    var qs := ps + [p];
    assert qs[..|qs| - 1] == ps && qs[|qs| - 1] == p;
  }

  /** The menu lines and linked projects of a list agree with those of the list
      without its last project, at every position the shorter list has. */
  lemma MenuLinesInit(ps: seq<Project>, n: nat)
    requires ps != [] && n < |Linked(ps[..|ps| - 1])|
    ensures n < |Linked(ps)| && MenuLines(ps)[n] == MenuLines(ps[..|ps| - 1])[n]
    ensures Linked(ps)[n] == Linked(ps[..|ps| - 1])[n]
  {
  }

  /** A linked last project gets the last menu line, numbered after the linked
      projects before it. */
  lemma MenuLinesLast(ps: seq<Project>)
    requires ps != [] && IsLinked(ps[|ps| - 1])
    ensures var k := |Linked(ps[..|ps| - 1])|;
      k < |Linked(ps)| && Linked(ps)[k] == ps[|ps| - 1] &&
      MenuLines(ps)[k] == ConsoleWrite(MenuLine(k + 1, ps[|ps| - 1]), true)
  {
  }

  /** Menu line n (from 0) shows number n + 1 and the n-th linked project. */
  lemma {:induction false} MenuLineAt(ps: seq<Project>, n: nat)
    requires n < |Linked(ps)|
    ensures MenuLines(ps)[n] == ConsoleWrite(MenuLine(n + 1, Linked(ps)[n]), true)
  {
    var init := ps[..|ps| - 1];
    if n < |Linked(init)| {
      MenuLinesInit(ps, n);
      MenuLineAt(init, n);
    } else {
      assert n == |Linked(init)| && IsLinked(ps[|ps| - 1]);
      MenuLinesLast(ps);
    }
  }

  /** The linked projects of a prefix of the list are a prefix of the linked projects. */
  lemma {:induction false} LinkedPrefix(ps: seq<Project>, i: nat)
    requires i <= |ps|
    ensures |Linked(ps[..i])| <= |Linked(ps)|
    ensures Linked(ps[..i]) == Linked(ps)[..|Linked(ps[..i])|]
    decreases |ps| - i
  {
    if i < |ps| {
      LinkedPrefix(ps, i + 1);
      assert ps[..i + 1] == ps[..i] + [ps[i]];
      LinkedSnoc(ps[..i], ps[i]);
    } else {
      assert ps[..i] == ps;
    }
  }

  /** The menu numbers the linked projects 1, 2, 3, ... in list order: a linked
      project gets one more than the number of linked projects before it, so a
      project that is not linked consumes no number. */
  lemma MenuNumbering(ps: seq<Project>, j: nat)
    requires j < |ps| && IsLinked(ps[j])
    ensures 1 + |Linked(ps[..j])| in Menu(ps)
    ensures Menu(ps)[1 + |Linked(ps[..j])|] == ps[j]
  {
    assert ps[..j + 1] == ps[..j] + [ps[j]];
    LinkedSnoc(ps[..j], ps[j]);
    LinkedPrefix(ps, j + 1);
    var n := |Linked(ps[..j])|;
    assert Linked(ps[..j + 1])[n] == ps[j];
  }

  /** The n-th linked project (from 0) sits at a position j of the list with n
      linked projects before it. */
  lemma {:induction false} LinkedComplete(ps: seq<Project>, n: nat)
    requires n < |Linked(ps)|
    ensures exists j :: 0 <= j < |ps| && IsLinked(ps[j]) && n == |Linked(ps[..j])| && Linked(ps)[n] == ps[j]
  {
    var last := |ps| - 1;
    var init := ps[..last];
    assert Linked(ps) == Linked(init) + (if IsLinked(ps[last]) then [ps[last]] else []);
    if n < |Linked(init)| {
      LinkedComplete(init, n);
      var j :| 0 <= j < |init| && IsLinked(init[j]) && n == |Linked(init[..j])| && Linked(init)[n] == init[j];
      assert init[..j] == ps[..j] by {
        assert forall t :: 0 <= t < j ==> init[..j][t] == ps[t];
      }
    } else {
      assert ps[..last] == init;
    }
  }

  /** Every menu entry is a linked project of the list, under the number that
      MenuNumbering gives it. */
  lemma MenuComplete(ps: seq<Project>, k: int)
    requires k in Menu(ps)
    ensures exists j :: 0 <= j < |ps| && IsLinked(ps[j]) && k == 1 + |Linked(ps[..j])| && Menu(ps)[k] == ps[j]
  {
    LinkedComplete(ps, k - 1);
  }

  lemma {:induction false} FirstWithIdFound(ps: seq<Project>, id: int, j: nat)
    requires j < |ps| && ps[j].id == id
    requires forall k :: 0 <= k < j ==> ps[k].id != id
    ensures FirstWithId(ps, id) == Some(ps[j])
  {
    if j > 0 {
      FirstWithIdFound(ps[1..], id, j - 1);
    }
  }

  lemma {:induction false} FirstWithIdMissing(ps: seq<Project>, id: int)
    requires forall k :: 0 <= k < |ps| ==> ps[k].id != id
    ensures FirstWithId(ps, id) == None
  {
    if ps != [] {
      FirstWithIdMissing(ps[1..], id);
    }
  }

  /** With no explicit id the answer decides alone: 0 aborts, a number outside
      1..k (k linked projects) is an invalid project, and 1..k picks the matching
      linked project, which therefore has both GitHub columns set. */
  lemma InteractiveSelection(ps: seq<Project>, resp: int, stored: Option<Project>)
    ensures Selection(ps, 0, resp, stored) == Failure(Aborted) <==> resp == 0
    ensures Selection(ps, 0, resp, stored) == Failure(InvalidProject) <==>
      resp != 0 && !(1 <= resp <= |Linked(ps)|)
    ensures Selection(ps, 0, resp, stored).Success? <==> 1 <= resp <= |Linked(ps)|
    ensures 1 <= resp <= |Linked(ps)| ==>
      var p := Selection(ps, 0, resp, stored).value;
      p == Linked(ps)[resp - 1] && IsLinked(p) && p in ps
  {
  }

  /** Typing the number the menu shows for a linked project selects that project. */
  lemma SelectingShownNumber(ps: seq<Project>, j: nat, w1: string, w2: string, stored: Option<Project>)
    requires j < |ps| && IsLinked(ps[j])
    requires AllTrimChars(w1) && AllTrimChars(w2)
    ensures |Linked(ps[..j])| < |MenuLines(ps)|
    ensures MenuLines(ps)[|Linked(ps[..j])|].text == MenuLine(1 + |Linked(ps[..j])|, ps[j])
    ensures var n := 1 + |Linked(ps[..j])|;
      Selection(ps, 0, ParseResponse(w1 + IntToString(n) + w2), stored) == Success(ps[j])
  {
    var n := 1 + |Linked(ps[..j])|;
    MenuNumbering(ps, j);
    LinkedPrefix(ps, j + 1);
    MenuLineAt(ps, n - 1);
    IntCastOfPaddedInt(w1, n, w2);
  }

  /** With a non-zero explicit id the first project carrying that id is selected,
      linked or not, whatever the answer would have been. */
  lemma ExplicitSelection(ps: seq<Project>, id: int, j: nat, resp: int, stored: Option<Project>)
    requires id != 0
    requires j < |ps| && ps[j].id == id
    requires forall k :: 0 <= k < j ==> ps[k].id != id
    ensures Selection(ps, id, resp, stored) == Success(ps[j])
  {
    FirstWithIdFound(ps, id, j);
  }

  /** With a non-zero explicit id the answer plays no part: none is read. */
  lemma ExplicitIgnoresResponse(ps: seq<Project>, id: int, resp1: int, resp2: int, stored: Option<Project>)
    requires id != 0
    ensures Selection(ps, id, resp1, stored) == Selection(ps, id, resp2, stored)
  {
  }

  /** With a non-zero explicit id that no project carries, the outcome is an invalid
      project only when no project is stored yet; a stored project is kept. */
  lemma ExplicitMiss(ps: seq<Project>, id: int, resp: int, stored: Option<Project>)
    requires id != 0
    requires forall k :: 0 <= k < |ps| ==> ps[k].id != id
    ensures Selection(ps, id, resp, stored) ==
      if stored.Some? then Success(stored.value) else Failure(InvalidProject)
  {
    FirstWithIdMissing(ps, id);
  }

  /** The logged line of a selected project whose title holds no tag is its title. */
  lemma LoggedProcessingLine(title: string)
    requires NoTagIn(title)
    ensures StripTags(ProcessingLine(title)) == ProcessingPrefix + title
  {
    assert ProcessingLine(title) == ProcessingPrefix + "<info>" + title + "</info>";
    StripTagsWrapped(ProcessingPrefix, "<info>", title, "</info>");
  }
}
