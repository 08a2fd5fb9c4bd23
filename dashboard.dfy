/** The dashboard's module-level state and its event handlers: the task
    list loaded from the server, the task being edited, the mobile status
    tab and the logged-in user, with `applyFilters`, `loadTasks`, the
    modal, `saveTask`, `editTask`, `deleteTask`, `toggleTaskStatus`, the tab
    clicks and `loadCurrentUser`. Server replies, confirmations and the
    page controls are parameters. */
module Dashboard {
  import opened Basics
  import opened Text
  import opened Tasks
  import opened Pipeline
  import opened Board
  import Auth

  /** What `showAlert` last put in the alert container. */
  datatype Alert = Alert(kind: Auth.Category, message: string)

  /** The editable fields of the task form, as `saveTask` sends them. */
  datatype Fields = Fields(title: string, description: string, priority: Priority, due: Option<Date>, tags: string)

  /** The task modal: whether it is open, its heading, the submit button's
      label, whether the delete button shows, the hidden task-id field and
      the form fields. */
  datatype Modal = Modal(open: bool, heading: string, submitLabel: string, deleteVisible: bool,
                         taskIdField: Option<int>, fields: Fields)

  /** The request a handler sent to the task API. */
  datatype Request =
    | NoRequest
    | CreateTask(body: Fields)
    | UpdateTask(taskId: int, body: Fields)
    | UpdateStatus(taskId: int, status: Status)
    | RemoveTask(taskId: int)

  const BlankFields: Fields := Fields("", "", Medium, None, "")

  /** The form filled in from a task; a missing description, due date or
      tags shows as an empty field. */
  function FieldsOf(t: Task): Fields
  {
    Fields(t.title, if t.description.Some? then t.description.value else "",
           t.priority, t.due, if t.tags.Some? then t.tags.value else "")
  }

  /** `showTaskModal(task)`, on the modal. */
  function ModalFor(task: Option<Task>): Modal
  {
    match task
    case Some(t) => Modal(true, "Edit Task", "Update Task", true, Some(t.id), FieldsOf(t))
    case None => Modal(true, "Add New Task", "Add Task", false, None, BlankFields)
  }

  /** An optional text as the server stores a form field: the empty
      string is no value. */
  function Stored(s: string): Option<string>
  {
    if s == [] then None else Some(s)
  }

  /** Opening the modal on a task shows that task in edit mode, with a
      delete button and the task's values, which a save sends back
      unchanged; opening it without one shows a blank add form without a
      delete button. */
  lemma ModalShowsTask(task: Option<Task>)
    requires task.Some? ==> task.value.description != Some("") && task.value.tags != Some("")
    ensures ModalFor(task).open
    ensures ModalFor(task).deleteVisible <==> task.Some?
    ensures ModalFor(task).heading == (if task.Some? then "Edit Task" else "Add New Task")
    ensures ModalFor(task).submitLabel == (if task.Some? then "Update Task" else "Add Task")
    ensures task.Some? ==>
      var f := ModalFor(task).fields;
      ModalFor(task).taskIdField == Some(task.value.id) &&
      f.title == task.value.title && f.priority == task.value.priority && f.due == task.value.due &&
      Stored(f.description) == task.value.description && Stored(f.tags) == task.value.tags
    ensures task.None? ==> ModalFor(task).taskIdField.None? && ModalFor(task).fields == BlankFields
  {
  }

  /** `tasks.find(t => t.id === id)`. */
  function FindTask(tasks: seq<Task>, id: int): (r: Option<Task>)
    ensures r.Some? ==> r.value in tasks && r.value.id == id
    ensures r.None? <==> forall t :: t in tasks ==> t.id != id
    ensures r.Some? ==> exists i :: (0 <= i < |tasks| && tasks[i] == r.value &&
      forall k :: 0 <= k < i ==> tasks[k].id != id)
  {
    if tasks == [] then None
    else if tasks[0].id == id then Some(tasks[0])
    else
      var r := FindTask(tasks[1..], id);
      assert r.Some? ==> exists i :: (0 <= i < |tasks| && tasks[i] == r.value &&
        forall k :: 0 <= k < i ==> tasks[k].id != id) by {
        if r.Some? {
          var i :| 0 <= i < |tasks[1..]| && tasks[1..][i] == r.value &&
            forall k :: 0 <= k < i ==> tasks[1..][k].id != id;
          assert tasks[i + 1] == r.value;
          assert forall k :: 0 <= k < i + 1 ==> tasks[k].id != id by {
            forall k | 0 <= k < i + 1
              ensures tasks[k].id != id
            {
              if k > 0 { assert tasks[k] == tasks[1..][k - 1]; }
            }
          }
        }
      }
      r
  }

  /** The tab a click leaves selected: clicking the selected tab clears the
      selection, clicking another selects it. */
  function NextTab(current: Option<Status>, clicked: Status): (r: Option<Status>)
    ensures r.Some? <==> current != Some(clicked)
    ensures r.Some? ==> r.value == clicked
  {
    if current == Some(clicked) then None else Some(clicked)
  }

  /** Two clicks on the same tab put the selection back as it was when
      no tab or that tab was selected, and clear it when another tab was. */
  lemma NextTabTwice(current: Option<Status>, clicked: Status)
    ensures current.None? || current == Some(clicked) ==> NextTab(NextTab(current, clicked), clicked) == current
    ensures current.Some? && current != Some(clicked) ==> NextTab(NextTab(current, clicked), clicked).None?
  {
  }

  /** Whether `if (editingTaskId)` takes the edit branch: a present id
      other than 0. */
  predicate Editing(editingTaskId: Option<int>)
  {
    editingTaskId.Some? && editingTaskId.value != 0
  }

  /** The request `saveTask` sends: an update of the task being edited, a
      creation otherwise. */
  function SaveRequest(editingTaskId: Option<int>, form: Fields): (r: Request)
    ensures r.UpdateTask? <==> Editing(editingTaskId)
    ensures r.CreateTask? <==> !Editing(editingTaskId)
    ensures r.UpdateTask? ==> r.taskId == editingTaskId.value && r.body == form
    ensures r.CreateTask? ==> r.body == form
  {
    if Editing(editingTaskId) then UpdateTask(editingTaskId.value, form) else CreateTask(form)
  }

  /** A modal opened on a task with a real id saves by updating that task;
      a modal opened for a new task saves by creating one. */
  lemma ModalDecidesSave(task: Option<Task>, form: Fields)
    requires task.Some? ==> task.value.id != 0
    ensures var editing := if task.Some? then Some(task.value.id) else None;
      (task.Some? ==> SaveRequest(editing, form) == UpdateTask(task.value.id, form)) &&
      (task.None? ==> SaveRequest(editing, form) == CreateTask(form))
  {
  }

  /** What the board shows for a task list, a tab selection and the page
      controls. */
  function BoardFor(tasks: seq<Task>, tab: Option<Status>, c: Controls): View
  {
    Render(tasks, Displayed(tasks, tab, c), c.today)
  }

  /** The computing part of `applyFilters`: a copy of the list goes
      through the tab restriction and the filter, is sorted in place in an
      array, and is searched. */
  method FilterSortSearch(tasks: seq<Task>, tab: Option<Status>, c: Controls) returns (shown: seq<Task>)
    ensures shown == Displayed(tasks, tab, c)
  {
    var filtered := TabRestrict(tasks, tab, c.width);
    filtered := ApplyFilter(filtered, c.filter, c.today);
    var a := new Task[|filtered|](i requires 0 <= i < |filtered| => filtered[i]);
    assert a[..] == filtered;
    SortInPlace(a, c.sort, c.today);
    shown := Search(a[..], Lower(c.query));
  }

  /** The dashboard page of one logged-in browser tab. */
  class DashboardState {
    var tasks: seq<Task>
    var editingTaskId: Option<int>
    var mobileStatusFilter: Option<Status>
    var currentUser: Option<Auth.UserView>
    /** What `renderTasks` last wrote, once it has run. */
    var board: Option<View>
    var modal: Modal
    var alert: Option<Alert>
    var displayName: string
    var adminButtonShown: bool
    /** Where the page has been sent, once it has. */
    var location: Option<string>

    constructor()
      ensures tasks == [] && editingTaskId.None? && mobileStatusFilter.None? && currentUser.None?
      ensures board.None? && !modal.open && alert.None? && !adminButtonShown && location.None?
    {
      tasks := [];
      editingTaskId := None;
      mobileStatusFilter := None;
      currentUser := None;
      board := None;
      modal := Modal(false, "", "", false, None, BlankFields);
      alert := None;
      displayName := "";
      adminButtonShown := false;
      location := None;
    }

    /** `applyFilters`: a copy of the task list goes through the tab
      restriction, the filter, an in-place sort and the search, and the
      board is rendered from the result. The list itself is left as it
      was. */
    method ApplyFilters(c: Controls) returns (shown: seq<Task>)
      modifies this
      ensures shown == Displayed(tasks, mobileStatusFilter, c)
      ensures board == Some(BoardFor(tasks, mobileStatusFilter, c))
      ensures tasks == old(tasks) && editingTaskId == old(editingTaskId)
      ensures mobileStatusFilter == old(mobileStatusFilter) && currentUser == old(currentUser)
      ensures modal == old(modal) && alert == old(alert) && displayName == old(displayName)
      ensures adminButtonShown == old(adminButtonShown) && location == old(location)
    {
      var list, tab := tasks, mobileStatusFilter;
      shown := FilterSortSearch(list, tab, c);
      board := Some(BoardFor(list, tab, c));
    }

    /** `loadTasks`: on success the list is replaced and the board shows
      it through the current controls; on failure an alert says so and the
      list and board stay. */
    method LoadTasks(reply: Reply<seq<Task>>, c: Controls)
      modifies this
      ensures reply.Ok? ==>
        tasks == reply.value &&
        board == Some(BoardFor(tasks, mobileStatusFilter, c)) &&
        alert == old(alert)
      ensures reply.Failed? ==>
        tasks == old(tasks) && board == old(board) &&
        alert == Some(Alert(Auth.Error, "Failed to load tasks"))
      ensures editingTaskId == old(editingTaskId) && mobileStatusFilter == old(mobileStatusFilter)
      ensures currentUser == old(currentUser) && modal == old(modal) && displayName == old(displayName)
      ensures adminButtonShown == old(adminButtonShown) && location == old(location)
    {
      if reply.Ok? {
        tasks := reply.value;
        // `renderTasks(tasks)` runs first, but `applyFilters` renders over it.
        var _ := ApplyFilters(c);
      } else {
        alert := Some(Alert(Auth.Error, "Failed to load tasks"));
      }
    }

    /** A click on a mobile status tab: the selection toggles and the board
      is filtered again. */
    method TabClick(clicked: Status, c: Controls) returns (shown: seq<Task>)
      modifies this
      ensures mobileStatusFilter == NextTab(old(mobileStatusFilter), clicked)
      ensures shown == Displayed(tasks, mobileStatusFilter, c)
      ensures board == Some(BoardFor(tasks, mobileStatusFilter, c))
      ensures c.width < MobileBreakpoint && mobileStatusFilter.Some? ==>
        forall t :: t in shown ==> t.status == clicked
      ensures tasks == old(tasks) && editingTaskId == old(editingTaskId) && currentUser == old(currentUser)
      ensures modal == old(modal) && alert == old(alert) && displayName == old(displayName)
      ensures adminButtonShown == old(adminButtonShown) && location == old(location)
    {
      mobileStatusFilter := NextTab(mobileStatusFilter, clicked);
      shown := ApplyFilters(c);
      if c.width < MobileBreakpoint && mobileStatusFilter.Some? {
        TabShowsOnlyItsStatus(tasks, clicked, c);
      }
    }

    /** `showTaskModal(task)`: the task being edited is the given one, or
      none, and the modal opens for it. */
    method ShowTaskModal(task: Option<Task>)
      modifies this
      ensures editingTaskId == (if task.Some? then Some(task.value.id) else None)
      ensures modal == ModalFor(task)
      ensures tasks == old(tasks) && mobileStatusFilter == old(mobileStatusFilter)
      ensures currentUser == old(currentUser) && board == old(board) && alert == old(alert)
      ensures displayName == old(displayName) && adminButtonShown == old(adminButtonShown)
      ensures location == old(location)
    {
      editingTaskId := if task.Some? then Some(task.value.id) else None;
      modal := ModalFor(task);
    }

    /** `closeModal`: the modal hides and no task is being edited. */
    method CloseModal()
      modifies this
      ensures editingTaskId.None? && modal == old(modal).(open := false)
      ensures tasks == old(tasks) && mobileStatusFilter == old(mobileStatusFilter)
      ensures currentUser == old(currentUser) && board == old(board) && alert == old(alert)
      ensures displayName == old(displayName) && adminButtonShown == old(adminButtonShown)
      ensures location == old(location)
    {
      modal := modal.(open := false);
      editingTaskId := None;
    }

    /** `editTask(id)`: the modal opens on the first task with that id;
      an unknown id does nothing. */
    method EditTask(id: int)
      modifies this
      ensures FindTask(old(tasks), id).Some? ==>
        editingTaskId == Some(id) && modal == ModalFor(FindTask(old(tasks), id))
      ensures FindTask(old(tasks), id).None? ==> editingTaskId == old(editingTaskId) && modal == old(modal)
      ensures tasks == old(tasks) && mobileStatusFilter == old(mobileStatusFilter)
      ensures currentUser == old(currentUser) && board == old(board) && alert == old(alert)
      ensures displayName == old(displayName) && adminButtonShown == old(adminButtonShown)
      ensures location == old(location)
    {
      var task := FindTask(tasks, id);
      if task.Some? {
        ShowTaskModal(task);
      }
    }

    /** `saveTask`: the form goes out as an update of the task being
      edited or as a new task. On success the success alert shows, the
      modal closes and the list reloads (a failed reload's alert replaces
      the success one); on failure the error shows and nothing else
      changes. */
    method SaveTask(form: Fields, answer: Reply<()>, reload: Reply<seq<Task>>, c: Controls)
      returns (request: Request)
      modifies this
      ensures request == SaveRequest(old(editingTaskId), form)
      ensures answer.Failed? ==>
        alert == Some(Alert(Auth.Error, answer.error)) &&
        editingTaskId == old(editingTaskId) && modal == old(modal) &&
        tasks == old(tasks) && board == old(board)
      ensures answer.Ok? ==>
        editingTaskId.None? && modal == old(modal).(open := false) &&
        (reload.Ok? ==>
          tasks == reload.value &&
          board == Some(BoardFor(tasks, mobileStatusFilter, c)) &&
          alert == Some(Alert(Auth.Success,
            if Editing(old(editingTaskId)) then "Task updated successfully" else "Task created successfully"))) &&
        (reload.Failed? ==>
          tasks == old(tasks) && board == old(board) &&
          alert == Some(Alert(Auth.Error, "Failed to load tasks")))
      ensures mobileStatusFilter == old(mobileStatusFilter) && currentUser == old(currentUser)
      ensures displayName == old(displayName) && adminButtonShown == old(adminButtonShown)
      ensures location == old(location)
    {
      request := SaveRequest(editingTaskId, form);
      if answer.Failed? {
        alert := Some(Alert(Auth.Error, answer.error));
        return;
      }
      if Editing(editingTaskId) {
        alert := Some(Alert(Auth.Success, "Task updated successfully"));
      } else {
        alert := Some(Alert(Auth.Success, "Task created successfully"));
      }
      CloseModal();
      LoadTasks(reload, c);
    }

    /** `deleteTask(id)`: declined, nothing is sent; otherwise the delete
      goes out, and on success the success alert shows and the list
      reloads, on failure the error shows. */
    method DeleteTask(id: int, confirmed: bool, answer: Reply<()>, reload: Reply<seq<Task>>, c: Controls)
      returns (request: Request)
      modifies this
      ensures !confirmed ==> request == NoRequest && tasks == old(tasks) && board == old(board) && alert == old(alert)
      ensures confirmed ==> request == RemoveTask(id)
      ensures confirmed && answer.Failed? ==>
        alert == Some(Alert(Auth.Error, answer.error)) && tasks == old(tasks) && board == old(board)
      ensures confirmed && answer.Ok? && reload.Ok? ==>
        tasks == reload.value &&
        board == Some(BoardFor(tasks, mobileStatusFilter, c)) &&
        alert == Some(Alert(Auth.Success, "Task deleted successfully"))
      ensures confirmed && answer.Ok? && reload.Failed? ==>
        tasks == old(tasks) && board == old(board) && alert == Some(Alert(Auth.Error, "Failed to load tasks"))
      ensures editingTaskId == old(editingTaskId) && modal == old(modal)
      ensures mobileStatusFilter == old(mobileStatusFilter) && currentUser == old(currentUser)
      ensures displayName == old(displayName) && adminButtonShown == old(adminButtonShown)
      ensures location == old(location)
    {
      request := NoRequest;
      if !confirmed {
        return;
      }
      request := RemoveTask(id);
      if answer.Failed? {
        alert := Some(Alert(Auth.Error, answer.error));
        return;
      }
      alert := Some(Alert(Auth.Success, "Task deleted successfully"));
      LoadTasks(reload, c);
    }

    /** The modal's delete button: with a task being edited and the first
      confirmation given, `deleteTask` runs (asking again) and the modal
      then closes whatever came of it. */
    method ModalDelete(firstConfirm: bool, secondConfirm: bool, answer: Reply<()>,
                       reload: Reply<seq<Task>>, c: Controls)
      returns (request: Request)
      modifies this
      ensures !(Editing(old(editingTaskId)) && firstConfirm) ==>
        request == NoRequest && editingTaskId == old(editingTaskId) && modal == old(modal) &&
        tasks == old(tasks) && board == old(board) && alert == old(alert)
      ensures Editing(old(editingTaskId)) && firstConfirm ==>
        request == (if secondConfirm then RemoveTask(old(editingTaskId).value) else NoRequest) &&
        editingTaskId.None? && modal == old(modal).(open := false)
      ensures mobileStatusFilter == old(mobileStatusFilter) && currentUser == old(currentUser)
      ensures displayName == old(displayName) && adminButtonShown == old(adminButtonShown)
      ensures location == old(location)
    {
      request := NoRequest;
      if Editing(editingTaskId) && firstConfirm {
        request := DeleteTask(editingTaskId.value, secondConfirm, answer, reload, c);
        CloseModal();
      }
    }

    /** `toggleTaskStatus(id)`: an id not in the list sends nothing and
      changes nothing; otherwise the task's next status goes out and the
      list reloads, or the error shows. */
    method ToggleTaskStatus(id: int, answer: Reply<()>, reload: Reply<seq<Task>>, c: Controls)
      returns (request: Request)
      modifies this
      ensures FindTask(old(tasks), id).None? ==>
        request == NoRequest && tasks == old(tasks) && board == old(board) && alert == old(alert)
      ensures FindTask(old(tasks), id).Some? ==>
        request == UpdateStatus(id, NextStatus(FindTask(old(tasks), id).value.status))
      ensures FindTask(old(tasks), id).Some? && answer.Failed? ==>
        alert == Some(Alert(Auth.Error, answer.error)) && tasks == old(tasks) && board == old(board)
      ensures FindTask(old(tasks), id).Some? && answer.Ok? && reload.Ok? ==>
        tasks == reload.value && alert == old(alert) &&
        board == Some(BoardFor(tasks, mobileStatusFilter, c))
      ensures FindTask(old(tasks), id).Some? && answer.Ok? && reload.Failed? ==>
        tasks == old(tasks) && board == old(board) && alert == Some(Alert(Auth.Error, "Failed to load tasks"))
      ensures editingTaskId == old(editingTaskId) && modal == old(modal)
      ensures mobileStatusFilter == old(mobileStatusFilter) && currentUser == old(currentUser)
      ensures displayName == old(displayName) && adminButtonShown == old(adminButtonShown)
      ensures location == old(location)
    {
      request := NoRequest;
      var task := FindTask(tasks, id);
      if task.None? {
        return;
      }
      request := UpdateStatus(id, NextStatus(task.value.status));
      if answer.Failed? {
        alert := Some(Alert(Auth.Error, answer.error));
        return;
      }
      LoadTasks(reload, c);
    }

    /** `loadCurrentUser`: the user from `/auth/api/me` is stored and
      named on the page, and the admin button shows for an admin (it is
      never hidden again); a failure sends the page to the login form. */
    method LoadCurrentUser(reply: Reply<Auth.UserView>) returns (user: Option<Auth.UserView>)
      modifies this
      ensures reply.Ok? ==>
        user == currentUser == Some(reply.value) && displayName == reply.value.username &&
        adminButtonShown == (old(adminButtonShown) || reply.value.isAdmin) && location == old(location)
      ensures reply.Failed? ==>
        user.None? && currentUser == old(currentUser) && displayName == old(displayName) &&
        adminButtonShown == old(adminButtonShown) && location == Some("/auth/login")
      ensures tasks == old(tasks) && editingTaskId == old(editingTaskId)
      ensures mobileStatusFilter == old(mobileStatusFilter) && board == old(board)
      ensures modal == old(modal) && alert == old(alert)
    {
      if reply.Ok? {
        currentUser := Some(reply.value);
        displayName := reply.value.username;
        if reply.value.isAdmin {
          adminButtonShown := true;
        }
        user := currentUser;
      } else {
        location := Some("/auth/login");
        user := None;
      }
    }
  }
}
