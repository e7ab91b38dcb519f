/**
 * The Dashboard of src/components/Dashboard.tsx: the list filter, the
 * per-status tab counts, and the state the handlers update (the post form,
 * the post being edited, the post shown in the quick view, the list filter
 * and the view mode).
 */
module Dashboard {
  import opened Optional
  import opened PostTypes
  import opened Lists
  import opened PostCounts
  import opened KeyboardNavigation

  datatype ViewMode = CalendarMode | ListMode

  /** The keyboard shortcut's view flip: calendar and list swap. */
  function Toggled(m: ViewMode): (r: ViewMode)
    ensures r != m
  {
    if m == CalendarMode then ListMode else CalendarMode
  }

  /**
   * filteredPosts: all posts for the filter 'All'; otherwise, in order,
   * exactly the posts whose status is the filter string.
   */
  function FilteredPosts(posts: seq<Post>, filter: string): (r: seq<Post>)
    ensures filter == "All" ==> r == posts
    ensures filter != "All" ==> forall p :: p in r <==> p in posts && StatusName(p.status) == filter
    ensures IsSubsequence(r, posts)
  {
    if filter == "All" then
      SubsequenceReflexive(posts);
      posts
    else
      FilterSubsequence(posts, (p: Post) => StatusName(p.status) == filter);
      Filter(posts, (p: Post) => StatusName(p.status) == filter)
  }

  /** The counts shown on the filter tabs. */
  datatype StatusCounts = StatusCounts(all: nat, idea: nat, drafted: nat, scheduled: nat, posted: nat)

  /** statusCounts: All is the number of posts, and the four status tabs add up to it. */
  function StatusCountsOf(posts: seq<Post>): (r: StatusCounts)
    ensures r.all == |posts|
    ensures r.idea + r.drafted + r.scheduled + r.posted == r.all
    ensures r.idea == StatusCount(posts, Idea) && r.drafted == StatusCount(posts, Drafted)
    ensures r.scheduled == StatusCount(posts, Scheduled) && r.posted == StatusCount(posts, Posted)
  {
    StatusCountsSum(posts);
    StatusCounts(|posts|, StatusCount(posts, Idea), StatusCount(posts, Drafted),
                 StatusCount(posts, Scheduled), StatusCount(posts, Posted))
  }

  /** The count a tab shows is the number of posts the list shows once that tab is picked. */
  lemma TabCountMatchesList(posts: seq<Post>, status: PostStatus)
    ensures StatusCount(posts, status) == |FilteredPosts(posts, StatusName(status))|
  {
    FilterAgree(posts, (p: Post) => p.status == status, (p: Post) => StatusName(p.status) == StatusName(status));
  }

  /** A filter that names no status lists nothing. */
  lemma UnknownFilterEmpty(posts: seq<Post>, filter: string)
    requires filter != "All" && forall st :: StatusName(st) != filter
    ensures FilteredPosts(posts, filter) == []
  {
  }

  /** What the form's onSubmit asks the posts service to do. */
  datatype Request = NoRequest | CreateRequest(data: PostData) | UpdateRequest(id: string, data: PostData)

  /** The Dashboard's state. */
  class DashboardState {
    var showForm: bool
    var editingPost: Option<Post>
    var selectedPost: Option<Post>
    var filter: string
    var viewMode: ViewMode

    /** The form is open whenever a post is being edited. */
    predicate Valid()
      reads this
    {
      editingPost.Some? ==> showForm
    }

    /** The initial state: no form, nothing edited or selected, filter 'All', calendar view. */
    constructor()
      ensures Valid()
      ensures !showForm && editingPost == None && selectedPost == None
      ensures filter == "All" && viewMode == CalendarMode
    {
      showForm := false;
      editingPost := None;
      selectedPost := None;
      filter := "All";
      viewMode := CalendarMode;
    }

    /** The Ctrl/Cmd+N shortcut, the New Post button and the empty list's button: open the form. */
    method OpenForm()
      modifies this
      requires Valid()
      ensures Valid()
      ensures showForm
      ensures editingPost == old(editingPost) && selectedPost == old(selectedPost)
      ensures filter == old(filter) && viewMode == old(viewMode)
    {
      showForm := true;
    }

    /** The Ctrl/Cmd+V shortcut: flip between calendar and list. */
    method ToggleView()
      modifies this
      requires Valid()
      ensures Valid()
      ensures viewMode == Toggled(old(viewMode)) && viewMode != old(viewMode)
      ensures showForm == old(showForm) && editingPost == old(editingPost)
      ensures selectedPost == old(selectedPost) && filter == old(filter)
    {
      viewMode := Toggled(viewMode);
    }

    /** The Escape shortcut: close the form and clear the edited and the selected post. */
    method Escape()
      modifies this
      ensures Valid()
      ensures !showForm && editingPost == None && selectedPost == None
      ensures filter == old(filter) && viewMode == old(viewMode)
    {
      showForm := false;
      editingPost := None;
      selectedPost := None;
    }

    /**
     * A keydown event: the callback the keyboard handler picks is run, and
     * the state is left alone when it picks none.
     */
    method KeyDown(e: KeyEvent) returns (preventDefault: bool)
      modifies this
      requires Valid()
      ensures Valid()
      ensures preventDefault <==> HandleKeyDown(e).preventDefault
      ensures HandleKeyDown(e).callback == OnCreatePost ==> showForm && editingPost == old(editingPost)
      ensures HandleKeyDown(e).callback == OnEscape ==> !showForm && editingPost == None && selectedPost == None
      ensures HandleKeyDown(e).callback == OnToggleView ==> viewMode == Toggled(old(viewMode)) && showForm == old(showForm)
      ensures HandleKeyDown(e).callback != OnToggleView ==> viewMode == old(viewMode)
      ensures HandleKeyDown(e).callback == NoCallback ==>
        showForm == old(showForm) && editingPost == old(editingPost) && selectedPost == old(selectedPost)
      ensures filter == old(filter)
    {
      var d := HandleKeyDown(e);
      match d.callback {
        case NoCallback =>
        case OnCreatePost => OpenForm();
        case OnToggleView => ToggleView();
        case OnEscape => Escape();
      }
      preventDefault := d.preventDefault;
    }

    /**
     * handleCreatePost, once createPost has answered: a returned post
     * closes the form and refetches; no post (or a failure) changes
     * nothing. The form only calls it while no post is being edited.
     */
    method HandleCreatePost(created: bool) returns (refetch: bool)
      modifies this
      requires Valid() && editingPost.None?
      ensures Valid()
      ensures refetch == created
      ensures showForm == (old(showForm) && !created)
      ensures editingPost == old(editingPost) && selectedPost == old(selectedPost)
      ensures filter == old(filter) && viewMode == old(viewMode)
    {
      refetch := false;
      if created {
        showForm := false;
        refetch := true;
      }
    }

    /**
     * handleUpdatePost: without an edited post nothing is asked and nothing
     * changes; otherwise the update goes to the edited post's id, and a
     * returned post clears the edited post, the form and the selection and
     * refetches.
     */
    method HandleUpdatePost(data: PostData, updated: bool) returns (request: Request, refetch: bool)
      modifies this
      requires Valid()
      ensures Valid()
      ensures old(editingPost).None? ==> request == NoRequest && !refetch
      ensures old(editingPost).Some? ==> request == UpdateRequest(old(editingPost).value.id, data) && refetch == updated
      ensures refetch ==> !showForm && editingPost == None && selectedPost == None
      ensures !refetch ==> showForm == old(showForm) && editingPost == old(editingPost) && selectedPost == old(selectedPost)
      ensures filter == old(filter) && viewMode == old(viewMode)
    {
      request := NoRequest;
      refetch := false;
      if editingPost.Some? {
        request := UpdateRequest(editingPost.value.id, data);
        if updated {
          editingPost := None;
          showForm := false;
          selectedPost := None;
          refetch := true;
        }
      }
    }

    /** handleDeletePost: a successful delete refetches; the state is untouched. */
    method HandleDeletePost(success: bool) returns (refetch: bool)
      ensures refetch == success
    {
      refetch := success;
    }

    /** handleEditPost: the post becomes the edited one, the form opens and the quick view closes. */
    method HandleEditPost(post: Post)
      modifies this
      ensures Valid()
      ensures editingPost == Some(post) && showForm && selectedPost == None
      ensures filter == old(filter) && viewMode == old(viewMode)
    {
      editingPost := Some(post);
      showForm := true;
      selectedPost := None;
    }

    /** handlePostClick: the post is shown in the quick view. */
    method HandlePostClick(post: Post)
      modifies this
      requires Valid()
      ensures Valid()
      ensures selectedPost == Some(post)
      ensures showForm == old(showForm) && editingPost == old(editingPost)
      ensures filter == old(filter) && viewMode == old(viewMode)
    {
      selectedPost := Some(post);
    }

    /** The quick view's onClose. */
    method CloseQuickView()
      modifies this
      requires Valid()
      ensures Valid()
      ensures selectedPost == None
      ensures showForm == old(showForm) && editingPost == old(editingPost)
      ensures filter == old(filter) && viewMode == old(viewMode)
    {
      selectedPost := None;
    }

    /** The Calendar and List buttons. */
    method SetViewMode(m: ViewMode)
      modifies this
      requires Valid()
      ensures Valid()
      ensures viewMode == m
      ensures showForm == old(showForm) && editingPost == old(editingPost)
      ensures selectedPost == old(selectedPost) && filter == old(filter)
    {
      viewMode := m;
    }

    /** A filter tab. */
    method SetFilter(f: string)
      modifies this
      requires Valid()
      ensures Valid()
      ensures filter == f
      ensures showForm == old(showForm) && editingPost == old(editingPost)
      ensures selectedPost == old(selectedPost) && viewMode == old(viewMode)
    {
      filter := f;
    }

    /** The form's onCancel: close the form and forget the edited post. */
    method CancelForm()
      modifies this
      requires Valid()
      ensures Valid()
      ensures !showForm && editingPost == None
      ensures selectedPost == old(selectedPost)
      ensures filter == old(filter) && viewMode == old(viewMode)
    {
      showForm := false;
      editingPost := None;
    }

    /**
     * The form's onSubmit, with the service's answer as `succeeded`: an
     * update of the edited post when there is one, a create otherwise.
     */
    method SubmitForm(data: PostData, succeeded: bool) returns (request: Request, refetch: bool)
      modifies this
      requires Valid()
      ensures Valid()
      ensures old(editingPost).Some? ==> request == UpdateRequest(old(editingPost).value.id, data)
      ensures old(editingPost).None? ==> request == CreateRequest(data)
      ensures refetch == succeeded
      ensures succeeded ==> !showForm && editingPost == None
      ensures succeeded && old(editingPost).Some? ==> selectedPost == None
      ensures !succeeded ==> showForm == old(showForm) && editingPost == old(editingPost) && selectedPost == old(selectedPost)
      ensures old(editingPost).None? ==> selectedPost == old(selectedPost)
      ensures filter == old(filter) && viewMode == old(viewMode)
    {
      if editingPost.Some? {
        request, refetch := HandleUpdatePost(data, succeeded);
      } else {
        request := CreateRequest(data);
        refetch := HandleCreatePost(succeeded);
      }
    }
  }
}
