/** The side navigation of the main window: a column of buttons of which
    exactly one is highlighted, moved by clicks and by the Up/Down keys, and
    the workspace that shows the page belonging to the highlighted button. */
module Navigation {
  import opened Options

  /** The three style sheets a button can wear. */
  datatype Style = DefaultStyle | HoverStyle | ActiveStyle

  /** What `navigation_changed` carries: the page id and the button text. */
  datatype Signal = Signal(pageId: string, title: string)

  datatype Key = Down | Up | OtherKey

  /** The panel's items, top to bottom, as (id, text). */
  const NavItems: seq<(string, string)> := [
    ("dashboard", "Dashboard"),
    ("students", "Students"),
    ("analysis", "Analysis"),
    ("reports", "Reports"),
    ("presentation", "Presentation"),
    ("settings", "Settings")
  ]

  // ------------------------------------------------------------ the button

  class NavigationButton {
    const id: string
    const text: string
    var active: bool
    var style: Style

    /** The active style is worn exactly by an active button. */
    ghost predicate Valid()
      reads this
    {
      active <==> style == ActiveStyle
    }

    constructor (id: string, text: string)
      ensures Valid()
      ensures this.id == id && this.text == text
      ensures !active && style == DefaultStyle
    {
      this.id := id;
      this.text := text;
      active := false;
      style := DefaultStyle;
    }

    method SetActive(active: bool)
      modifies this
      ensures Valid()
      ensures this.active == active
      ensures style == (if active then ActiveStyle else DefaultStyle)
    {
      this.active := active;
      style := if active then ActiveStyle else DefaultStyle;
    }

    /** Mouse enters: only an inactive button lights up. */
    method Enter()
      requires Valid()
      modifies this
      ensures Valid()
      ensures active == old(active)
      ensures style == (if active then old(style) else HoverStyle)
    {
      if !active {
        style := HoverStyle;
      }
    }

    /** Mouse leaves: only an inactive button goes back to the default. */
    method Leave()
      requires Valid()
      modifies this
      ensures Valid()
      ensures active == old(active)
      ensures style == (if active then old(style) else DefaultStyle)
    {
      if !active {
        style := DefaultStyle;
      }
    }
  }

  // ------------------------------------------------------- index arithmetic

  /** `(i + 1) % n` with Python's non-negative modulo: the next button,
      wrapping from the last to the first. */
  function NextIndex(i: int, n: int): (r: int)
    requires 0 <= i < n
    ensures 0 <= r < n
    ensures r == (if i == n - 1 then 0 else i + 1)
  {
    (i + 1) % n
  }

  /** `(i - 1) % n` with Python's non-negative modulo: the previous button,
      wrapping from the first to the last. */
  function PrevIndex(i: int, n: int): (r: int)
    requires 0 <= i < n
    ensures 0 <= r < n
    ensures r == (if i == 0 then n - 1 else i - 1)
  {
    (i - 1) % n
  }

  /** Down then Up, or Up then Down, comes back to the same button. */
  lemma UpUndoesDown(i: int, n: int)
    requires 0 <= i < n
    ensures PrevIndex(NextIndex(i, n), n) == i
    ensures NextIndex(PrevIndex(i, n), n) == i
  {
  }

  /** Pressing Down k times from i. */
  function DownTimes(i: int, n: int, k: nat): (r: int)
    requires 0 <= i < n
    ensures 0 <= r < n
  {
    if k == 0 then i else NextIndex(DownTimes(i, n, k - 1), n)
  }

  /** Up to n presses of Down from i land on i + k, wrapped once past the end. */
  lemma {:induction false} DownTimesWraps(i: int, n: int, k: nat)
    requires 0 <= i < n && k <= n
    ensures DownTimes(i, n, k) == (if i + k < n then i + k else i + k - n)
  {
    if k > 0 {
      DownTimesWraps(i, n, k - 1);
    }
  }

  /** n presses of Down visit every other button once and come back to the start. */
  lemma DownCycles(i: int, n: int)
    requires 0 <= i < n
    ensures DownTimes(i, n, n) == i
    ensures forall k: nat :: 0 < k < n ==> DownTimes(i, n, k) != i
  {
    DownTimesWraps(i, n, n);
    forall k: nat | 0 < k < n
      ensures DownTimes(i, n, k) != i
    {
      DownTimesWraps(i, n, k);
    }
  }

  // -------------------------------------------------------------- the panel

  /** Index of the first button whose id is `id`, as the search in
      `activate_by_id` finds it. */
  function FirstWithId(buttons: seq<NavigationButton>, id: string): (r: Option<nat>)
    ensures r.Some? ==> r.value < |buttons| && buttons[r.value].id == id &&
                        forall j :: 0 <= j < r.value ==> buttons[j].id != id
    ensures r.None? ==> forall j :: 0 <= j < |buttons| ==> buttons[j].id != id
  {
    if buttons == [] then None
    else if buttons[0].id == id then Some(0)
    else match FirstWithId(buttons[1..], id)
      case None => None
      case Some(k) => Some(k + 1)
  }

  class NavigationPanel {
    var buttons: seq<NavigationButton>
    var currentIndex: int

    /** Shape of the panel: distinct buttons, each keeping its own invariant,
        and an index inside the list. */
    ghost predicate WellFormed()
      reads this, buttons
    {
      |buttons| > 0 &&
      (forall i, j :: 0 <= i < j < |buttons| ==> buttons[i] != buttons[j]) &&
      (forall k :: 0 <= k < |buttons| ==> buttons[k].Valid()) &&
      0 <= currentIndex < |buttons|
    }

    /** The panel's invariant: exactly the button at the current index is active. */
    ghost predicate Valid()
      reads this, buttons
    {
      WellFormed() &&
      forall k :: 0 <= k < |buttons| ==> (buttons[k].active <==> k == currentIndex)
    }

    /** Builds one button per item and activates the first. The signal this
        emits is lost: nothing is connected to it yet. */
    constructor ()
      ensures Valid()
      ensures |buttons| == |NavItems|
      ensures forall k :: 0 <= k < |buttons| ==>
        buttons[k].id == NavItems[k].0 && buttons[k].text == NavItems[k].1
      ensures fresh(buttons)
      ensures currentIndex == 0
      ensures forall k :: 0 <= k < |buttons| ==>
        buttons[k].style == (if k == 0 then ActiveStyle else DefaultStyle)
    {
      var bs: seq<NavigationButton> := [];
      var k := 0;
      while k < |NavItems|
        invariant 0 <= k <= |NavItems| && |bs| == k
        invariant forall i :: 0 <= i < k ==> fresh(bs[i])
        invariant forall i, j :: 0 <= i < j < k ==> bs[i] != bs[j]
        invariant forall i :: 0 <= i < k ==>
          bs[i].Valid() && bs[i].id == NavItems[i].0 && bs[i].text == NavItems[i].1
      {
        var b := new NavigationButton(NavItems[k].0, NavItems[k].1);
        bs := bs + [b];
        k := k + 1;
      }
      buttons := bs;
      currentIndex := 0;
      new;
      var _ := ActivateIndex(0);
    }

    /** Clears every button, then activates the one at `index` and emits its
        id and text. */
    method ActivateIndex(index: int) returns (s: Signal)
      requires WellFormed()
      requires 0 <= index < |buttons|
      modifies this`currentIndex, buttons
      ensures Valid()
      ensures buttons == old(buttons)
      ensures currentIndex == index
      ensures forall k :: 0 <= k < |buttons| ==>
        buttons[k].style == (if k == index then ActiveStyle else DefaultStyle)
      ensures s == Signal(buttons[index].id, buttons[index].text)
    {
      currentIndex := index;
      var k := 0;
      while k < |buttons|
        invariant 0 <= k <= |buttons|
        invariant WellFormed() && currentIndex == index
        invariant forall j :: 0 <= j < k ==> !buttons[j].active && buttons[j].style == DefaultStyle
      {
        buttons[k].SetActive(false);
        k := k + 1;
      }
      buttons[index].SetActive(true);
      s := Signal(buttons[index].id, buttons[index].text);
    }

    /** Activates the first button carrying `btnId`; an unknown id changes
        nothing and emits nothing. The text argument is not used. */
    method ActivateById(btnId: string, btnText: string) returns (s: Option<Signal>)
      requires Valid()
      modifies this`currentIndex, buttons
      ensures Valid()
      ensures buttons == old(buttons)
      ensures match FirstWithId(buttons, btnId)
        case None =>
          s == None && currentIndex == old(currentIndex) &&
          forall k :: 0 <= k < |buttons| ==> buttons[k].style == old(buttons[k].style)
        case Some(i) =>
          s == Some(Signal(btnId, buttons[i].text)) && currentIndex == i &&
          forall k :: 0 <= k < |buttons| ==>
            buttons[k].style == (if k == i then ActiveStyle else DefaultStyle)
    {
      s := None;
      var i := 0;
      while i < |buttons|
        invariant 0 <= i <= |buttons|
        invariant forall j :: 0 <= j < i ==> buttons[j].id != btnId
      {
        if buttons[i].id == btnId {
          var emitted := ActivateIndex(i);
          s := Some(emitted);
          return;
        }
        i := i + 1;
      }
    }

    /** Down and Up move the highlight cyclically; any other key is passed on
        and changes nothing here. */
    method KeyPress(key: Key) returns (s: Option<Signal>)
      requires Valid()
      modifies this`currentIndex, buttons
      ensures Valid()
      ensures buttons == old(buttons)
      ensures key == Down ==> currentIndex == NextIndex(old(currentIndex), |buttons|)
      ensures key == Up ==> currentIndex == PrevIndex(old(currentIndex), |buttons|)
      ensures key == OtherKey ==> (s == None && currentIndex == old(currentIndex) &&
        forall k :: 0 <= k < |buttons| ==> buttons[k].style == old(buttons[k].style))
      ensures key != OtherKey ==> s == Some(Signal(buttons[currentIndex].id, buttons[currentIndex].text))
      ensures key != OtherKey ==> forall k :: 0 <= k < |buttons| ==>
        buttons[k].style == (if k == currentIndex then ActiveStyle else DefaultStyle)
    {
      if key == Down {
        var emitted := ActivateIndex(NextIndex(currentIndex, |buttons|));
        s := Some(emitted);
      } else if key == Up {
        var emitted := ActivateIndex(PrevIndex(currentIndex, |buttons|));
        s := Some(emitted);
      } else {
        s := None;
      }
    }
  }

  // ---------------------------------------------------------- the workspace

  /** Stands for a page widget; the pages themselves are not modelled. */
  datatype Page = Page(id: string)

  /** A page that `switch_page` will show: known and already created. */
  predicate Showable(pages: map<string, Option<Page>>, pageId: string) {
    pageId in pages && pages[pageId].Some?
  }

  /** The page map once `create_other_pages` has run. */
  function AllPages(): (m: map<string, Option<Page>>)
    ensures forall k :: 0 <= k < |NavItems| ==> Showable(m, NavItems[k].0)
  {
    map k | k in {"dashboard", "students", "analysis", "reports", "presentation", "settings"} :: Some(Page(k))
  }

  class WorkspaceArea {
    var pages: map<string, Option<Page>>
    var studentsPage: Option<Page>
    var currentPage: Option<string>
    /** The page the stacked widget shows. */
    var currentWidget: Option<Page>

    /** The id recorded as current is a showable page, and it is the page shown. */
    ghost predicate Valid()
      reads this
    {
      currentPage.Some? ==>
        Showable(pages, currentPage.value) && currentWidget == pages[currentPage.value]
    }

    /** Only the dashboard exists at first; it is the first widget on the
        stack, so it is shown, though no page is recorded as current. */
    constructor ()
      ensures Valid()
      ensures pages == AllPages() && studentsPage == Some(Page("students"))
      ensures currentPage == None && currentWidget == Some(Page("dashboard"))
    {
      pages := map["dashboard" := Some(Page("dashboard")), "students" := None, "analysis" := None,
                   "reports" := None, "presentation" := None, "settings" := None];
      studentsPage := None;
      currentPage := None;
      currentWidget := Some(Page("dashboard"));
      new;
      CreateOtherPages();
    }

    /** Creates the five pages other than the dashboard; it runs once, from
        the constructor, before any page has been recorded as current. */
    method CreateOtherPages()
      requires currentPage == None
      modifies this
      ensures Valid()
      ensures pages == old(pages)["students" := Some(Page("students"))]["analysis" := Some(Page("analysis"))]
                                 ["reports" := Some(Page("reports"))]["presentation" := Some(Page("presentation"))]
                                 ["settings" := Some(Page("settings"))]
      ensures studentsPage == Some(Page("students"))
      ensures currentPage == None && currentWidget == old(currentWidget)
    {
      studentsPage := Some(Page("students"));
      pages := pages["students" := studentsPage];
      pages := pages["analysis" := Some(Page("analysis"))];
      pages := pages["reports" := Some(Page("reports"))];
      pages := pages["presentation" := Some(Page("presentation"))];
      pages := pages["settings" := Some(Page("settings"))];
    }

    /** Shows a known, created page and records it as current; an unknown
        id, or a page not created yet, changes nothing. Switching to the
        students page also reloads its year options (reported by the result). */
    method SwitchPage(pageId: string, pageTitle: string) returns (reloadedYears: bool)
      requires Valid()
      modifies this
      ensures Valid()
      ensures pages == old(pages) && studentsPage == old(studentsPage)
      ensures Showable(pages, pageId) ==> currentPage == Some(pageId) && currentWidget == pages[pageId]
      ensures !Showable(pages, pageId) ==>
        currentPage == old(currentPage) && currentWidget == old(currentWidget)
      ensures reloadedYears <==> Showable(pages, pageId) && pageId == "students" && studentsPage.Some?
    {
      reloadedYears := false;
      if Showable(pages, pageId) {
        currentWidget := pages[pageId];
        currentPage := Some(pageId);
        if pageId == "students" && studentsPage.Some? {
          reloadedYears := true;
        }
      }
    }
  }

  // ------------------------------------------------------------ the window

  /** The main window connects the panel's signal to the workspace. */
  class MainWindow {
    const nav: NavigationPanel
    const workspace: WorkspaceArea

    /** The workspace shows the page of the highlighted button. */
    ghost predicate Valid()
      reads this, nav, nav.buttons, workspace
    {
      nav.Valid() && workspace.Valid() && workspace.pages == AllPages() &&
      (forall k :: 0 <= k < |nav.buttons| ==> Showable(AllPages(), nav.buttons[k].id)) &&
      workspace.currentWidget == Some(Page(nav.buttons[nav.currentIndex].id))
    }

    /** The dashboard button is highlighted and the dashboard is shown,
        though no page is recorded as current yet. */
    constructor ()
      ensures Valid()
      ensures fresh(nav) && fresh(nav.buttons) && fresh(workspace)
      ensures |nav.buttons| == |NavItems| &&
        forall k :: 0 <= k < |NavItems| ==> nav.buttons[k].id == NavItems[k].0
      ensures nav.currentIndex == 0 && nav.buttons[0].id == "dashboard"
      ensures forall k :: 0 <= k < |nav.buttons| ==>
        nav.buttons[k].style == (if k == 0 then ActiveStyle else DefaultStyle)
      ensures workspace.currentPage == None && workspace.currentWidget == Some(Page("dashboard"))
      ensures workspace.studentsPage == Some(Page("students"))
    {
      nav := new NavigationPanel();
      workspace := new WorkspaceArea();
      new;
      assert nav.buttons[0].id == "dashboard";
    }

    /** `on_navigation_changed`: hands the emitted page to the workspace;
        the result tells whether the students page reloaded its years. */
    method OnNavigationChanged(s: Option<Signal>) returns (reloadedYears: bool)
      requires workspace.Valid()
      modifies workspace
      ensures workspace.Valid()
      ensures workspace.pages == old(workspace.pages)
      ensures workspace.studentsPage == old(workspace.studentsPage)
      ensures s.Some? && Showable(workspace.pages, s.value.pageId) ==>
        workspace.currentPage == Some(s.value.pageId) &&
        workspace.currentWidget == workspace.pages[s.value.pageId]
      ensures s.None? || !Showable(workspace.pages, s.value.pageId) ==>
        workspace.currentPage == old(workspace.currentPage) &&
        workspace.currentWidget == old(workspace.currentWidget)
      ensures reloadedYears <==>
        s.Some? && Showable(workspace.pages, s.value.pageId) &&
        s.value.pageId == "students" && workspace.studentsPage.Some?
    {
      reloadedYears := false;
      if s.Some? {
        reloadedYears := workspace.SwitchPage(s.value.pageId, s.value.title);
      }
    }

    /** A key press on the panel, followed through to the workspace: the shown
        page keeps following the highlight. */
    method OnKey(key: Key) returns (reloadedYears: bool)
      requires Valid()
      modifies nav, nav.buttons, workspace
      ensures Valid()
      ensures nav.buttons == old(nav.buttons)
      ensures key == Down ==> nav.currentIndex == NextIndex(old(nav.currentIndex), |nav.buttons|)
      ensures key == Up ==> nav.currentIndex == PrevIndex(old(nav.currentIndex), |nav.buttons|)
      ensures workspace.studentsPage == old(workspace.studentsPage)
      ensures key != OtherKey ==> workspace.currentPage == Some(nav.buttons[nav.currentIndex].id)
      ensures key != OtherKey ==> forall k :: 0 <= k < |nav.buttons| ==>
        nav.buttons[k].style == (if k == nav.currentIndex then ActiveStyle else DefaultStyle)
      ensures key == OtherKey ==>
        nav.currentIndex == old(nav.currentIndex) &&
        workspace.currentPage == old(workspace.currentPage) &&
        workspace.currentWidget == old(workspace.currentWidget) &&
        forall k :: 0 <= k < |nav.buttons| ==> nav.buttons[k].style == old(nav.buttons[k].style)
      ensures reloadedYears <==>
        key != OtherKey && nav.buttons[nav.currentIndex].id == "students" && workspace.studentsPage.Some?
    {
      var s := nav.KeyPress(key);
      reloadedYears := OnNavigationChanged(s);
    }

    /** A click on a button, followed through to the workspace. */
    method OnClick(btnId: string, btnText: string) returns (reloadedYears: bool)
      requires Valid()
      modifies nav, nav.buttons, workspace
      ensures Valid()
      ensures nav.buttons == old(nav.buttons)
      ensures workspace.studentsPage == old(workspace.studentsPage)
      ensures match FirstWithId(nav.buttons, btnId)
        case None =>
          nav.currentIndex == old(nav.currentIndex) &&
          workspace.currentPage == old(workspace.currentPage) &&
          workspace.currentWidget == old(workspace.currentWidget) &&
          forall k :: 0 <= k < |nav.buttons| ==> nav.buttons[k].style == old(nav.buttons[k].style)
        case Some(i) =>
          nav.currentIndex == i && workspace.currentPage == Some(btnId) &&
          workspace.currentWidget == Some(Page(btnId)) &&
          forall k :: 0 <= k < |nav.buttons| ==>
            nav.buttons[k].style == (if k == i then ActiveStyle else DefaultStyle)
      ensures reloadedYears <==>
        FirstWithId(nav.buttons, btnId).Some? && btnId == "students" && workspace.studentsPage.Some?
    {
      var s := nav.ActivateById(btnId, btnText);
      reloadedYears := OnNavigationChanged(s);
    }
  }
}
