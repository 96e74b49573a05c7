/** The base class of the tracker's command-line commands. */
module Command {
  import opened Wrappers
  import opened Markup
  import opened ProjectSelection

  /** A command option: long name, short name and help text. */
  datatype CommandOption = CommandOption(longArg: string, shortArg: string, description: string)

  /** TrackerCommand. The DI container and the logger are services the model only
      stores, so they are type parameters. */
  class TrackerCommand<Container, Logger> {
    var container: Option<Container>
    var logger: Option<Logger>
    var options: seq<CommandOption>
    var description: string
    var project: Option<Project>
    /** Every out() call made through the application, in order. */
    var console: seq<ConsoleWrite>
    /** The messages logOut() handed to the container's logger, in order. */
    var logged: seq<string>
    /** The request input 'project' that a successful selection sets. */
    var inputProject: Option<int>

    constructor ()
      ensures container == None && logger == None
      ensures options == [] && description == ""
      ensures project == None && inputProject == None
      ensures console == [] && logged == []
    {
      container, logger := None, None;
      options, description := [], "";
      project, inputProject := None, None;
      console, logged := [], [];
    }

    /** The help text; it depends on the description field alone. */
    function GetDescription(): (d: string)
      reads this`description
      ensures d == description
    {
      description
    }

    /** Appends one option and leaves the earlier ones as they were. */
    method AddOption(option: CommandOption)
      modifies this`options
      ensures |options| == |old(options)| + 1
      ensures options[..|old(options)|] == old(options) && options[|options| - 1] == option
    {
      options := options + [option];
    }

    method SetLogger(l: Logger)
      modifies this`logger
      ensures logger == Some(l)
    {
      logger := Some(l);
    }

    method SetContainer(c: Container)
      modifies this`container
      ensures container == Some(c)
    {
      container := Some(c);
    }

    /** The container, or UnexpectedValueException('Container not set') exactly when
        none has been set. */
    function GetContainer(): (r: Result<Container, Exception>)
      reads this
      ensures r.Failure? <==> container.None?
      ensures r.Failure? ==> r.error == ContainerNotSet
      ensures r.Success? ==> container == Some(r.value)
    {
      match container
      case None => Failure(ContainerNotSet)
      case Some(c) => Success(c)
    }

    /** Writes through the application taken from the container. */
    method Out(text: string, newline: bool) returns (status: Outcome<Exception>)
      modifies this`console
      ensures status == if container.None? then Fail(ContainerNotSet) else Pass
      ensures console == old(console) + (if container.None? then [] else [ConsoleWrite(text, newline)])
    {
      if container.None? {
        return Fail(ContainerNotSet);
      }
      console := console + [ConsoleWrite(text, newline)];
      status := Pass;
    }

    method OutOK() returns (status: Outcome<Exception>)
      modifies this`console
      ensures status == if container.None? then Fail(ContainerNotSet) else Pass
      ensures console == old(console) + (if container.None? then [] else [ConsoleWrite("<ok>ok</ok>", true)])
    {
      status := Out("<ok>ok</ok>", true);
    }

    /** Hands the text, with its markup tags removed, to the container's logger. */
    method LogOut(text: string) returns (status: Outcome<Exception>)
      modifies this`logged
      ensures status == if container.None? then Fail(ContainerNotSet) else Pass
      ensures logged == old(logged) + (if container.None? then [] else [StripTags(text)])
    {
      if container.None? {
        return Fail(ContainerNotSet);
      }
      logged := logged + [StripTags(text)];
      status := Pass;
    }

    /** selectProject(): projects is the list read from #__tracker_projects,
        projectArg and pArg the --project and -p inputs, response the line the
        operator answers at the prompt. */
    method SelectProject(projects: seq<Project>, projectArg: Option<int>, pArg: Option<int>, response: string)
      returns (r: Result<Project, Exception>)
      modifies this`project, this`console, this`logged, this`inputProject
      ensures container.None? ==>
        r == Failure(ContainerNotSet) && unchanged(this)
      ensures container.Some? ==>
        r == Selection(projects, ExplicitId(projectArg, pArg), ParseResponse(response), old(project))
      ensures container.Some? ==>
        console == old(console) + (if ExplicitId(projectArg, pArg) == 0 then MenuScreen(projects) else [])
      ensures r.Success? ==>
        && project == Some(r.value)
        && logged == old(logged) + [StripTags(ProcessingLine(r.value.title))]
        && inputProject == Some(r.value.id)
      ensures r.Failure? ==>
        project == old(project) && logged == old(logged) && inputProject == old(inputProject)
    {
      if container.None? {
        return Failure(ContainerNotSet);
      }
      var id := ExplicitId(projectArg, pArg);
      if id == 0 {
        r := SelectFromMenu(projects, response);
      } else {
        r := SelectById(projects, id);
        ExplicitIgnoresResponse(projects, id, 0, ParseResponse(response), old(project));
      }
      if r.Success? {
        Announce(r.value);
      }
    }

    /** The end of selectProject() (lines 369-371): logs the selected project's title
        and records its id in the request input. */
    method Announce(selected: Project)
      requires container.Some?
      modifies this`logged, this`inputProject
      ensures logged == old(logged) + [StripTags(ProcessingLine(selected.title))]
      ensures inputProject == Some(selected.id)
    {
      var status := LogOut(ProcessingLine(selected.title));
      inputProject := Some(selected.id);
    }

    /** The interactive branch of selectProject() (lines 313-350): lists the linked
        projects, reads the answer and looks it up in $checks. */
    method SelectFromMenu(projects: seq<Project>, response: string) returns (r: Result<Project, Exception>)
      requires container.Some?
      modifies this`project, this`console
      ensures r == Selection(projects, 0, ParseResponse(response), old(project))
      ensures console == old(console) + MenuScreen(projects)
      ensures project == if r.Success? then Some(r.value) else old(project)
    {
      var status: Outcome<Exception>;
      var blank := ConsoleWrite("", true);
      status := Out("", true);
      status := Out(MenuHeading, true);
      status := Out("", true);
      assert console == old(console) + [blank] + [ConsoleWrite(MenuHeading, true)] + [blank];
      assert console == old(console) + MenuHeader();
      var checks, lines := BuildMenu(projects);
      console := console + lines;
      ghost var listed := console;
      status := Out("", true);
      status := Out(MenuPrompt, false);
      assert console == listed + [blank] + [ConsoleWrite(MenuPrompt, false)];
      assert console == listed + MenuFooter();
      assert console == old(console) + (MenuHeader() + lines + MenuFooter());
      var resp := ParseResponse(response);
      if resp == 0 {
        return Failure(Aborted);
      }
      if resp !in checks {
        return Failure(InvalidProject);
      }
      project := Some(checks[resp]);
      r := Success(checks[resp]);
    }

    /** The explicit-id branch of selectProject() (lines 351-367): the first project
        with that id replaces the stored one; the failure depends on the field only. */
    method SelectById(projects: seq<Project>, id: int) returns (r: Result<Project, Exception>)
      requires id != 0
      modifies this`project
      ensures r == Selection(projects, id, 0, old(project))
      ensures project == if r.Success? then Some(r.value) else old(project)
    {
      var i := 0;
      while i < |projects|
        invariant 0 <= i <= |projects|
        invariant forall k :: 0 <= k < i ==> projects[k].id != id
        invariant project == old(project)
      {
        if projects[i].id == id {
          project := Some(projects[i]);
          break;
        }
        i := i + 1;
      }
      if i < |projects| {
        FirstWithIdFound(projects, id, i);
      } else {
        FirstWithIdMissing(projects, id);
      }
      if project.None? {
        return Failure(InvalidProject);
      }
      r := Success(project.value);
    }
  }
}
