/**
 * The role checks of library/permissions.py: four decisions over who is
 * asking (authenticated or not, staff or not), with which HTTP method, for
 * which view-set action; and which view set uses which check
 * (library/views.py).
 */
module Permissions {

  /** The requesting user. An anonymous user is neither authenticated nor staff. */
  datatype User = User(authenticated: bool, isStaff: bool)

  /**
   * A request: the user, the HTTP method (the verb) and the name of the view-set
   * action it is routed to (`list`, `create`, `borrow`, ...). An action name
   * the router does not know behaves like any name other than the two below.
   */
  datatype Request = Request(user: User, verb: string, action: string)

  /** The read-only methods of the REST framework. */
  const SafeMethods: set<string> := {"GET", "HEAD", "OPTIONS"}

  /** The two write actions members may use on borrow records. */
  const MemberActions: set<string> := {"borrow", "return_book"}

  /** IsLibrarian: authenticated staff only. */
  function IsLibrarian(r: Request): (granted: bool)
    ensures granted <==> r.user.authenticated && r.user.isStaff
  {
    r.user.authenticated && r.user.isStaff
  }

  /** IsMember: any authenticated user, staff or not. No view set uses this check. */
  function IsMember(r: Request): (granted: bool)
    ensures granted <==> r.user.authenticated
  {
    r.user.authenticated
  }

  /** IsLibrarianOrReadOnly: reads for every authenticated user, writes for staff. */
  function IsLibrarianOrReadOnly(r: Request): (granted: bool)
    ensures granted ==> r.user.authenticated
    ensures r.user.authenticated && r.user.isStaff ==> granted
  {
    if r.verb in SafeMethods then r.user.authenticated
    else r.user.authenticated && r.user.isStaff
  }

  /**
   * IsLibrarianOrMemberReadOnly: reads and the borrow and return actions for
   * every authenticated user, other writes for staff.
   */
  function IsLibrarianOrMemberReadOnly(r: Request): (granted: bool)
    ensures granted ==> r.user.authenticated
    ensures r.user.authenticated && r.user.isStaff ==> granted
  {
    if r.verb in SafeMethods then r.user.authenticated
    else if r.user.authenticated then
      if r.action in MemberActions then true else r.user.isStaff
    else false
  }

  // ---------------------------------------------------------------------------
  // Which view set is guarded by which check
  // ---------------------------------------------------------------------------

  datatype Endpoint = Authors | Books | Members | BorrowRecords

  /**
   * The permission class each view set names. No endpoint admits an
   * unauthenticated user, every endpoint admits a librarian, and outside the
   * borrow records every write is for librarians only.
   */
  function Allowed(e: Endpoint, r: Request): (granted: bool)
    ensures granted ==> r.user.authenticated
    ensures r.user.authenticated && r.user.isStaff ==> granted
    ensures e != BorrowRecords && r.verb !in SafeMethods ==> (granted <==> r.user.authenticated && r.user.isStaff)
    ensures e == Members ==> (granted <==> r.user.authenticated && r.user.isStaff)
  {
    match e
    case Authors => IsLibrarianOrReadOnly(r)
    case Books => IsLibrarianOrReadOnly(r)
    case Members => IsLibrarian(r)
    case BorrowRecords => IsLibrarianOrMemberReadOnly(r)
  }

  // ---------------------------------------------------------------------------
  // Properties
  // ---------------------------------------------------------------------------

  /** IsLibrarian and IsMember look only at the user, never at the method or action. */
  lemma RoleChecksIgnoreMethodAndAction(r: Request, verb: string, action: string)
    ensures IsLibrarian(r) <==> r.user.authenticated && r.user.isStaff
    ensures IsLibrarian(r.(verb := verb, action := action)) == IsLibrarian(r)
    ensures IsMember(r) <==> r.user.authenticated
    ensures IsMember(r.(verb := verb, action := action)) == IsMember(r)
  {
  }

  /** IsLibrarianOrReadOnly is the member check on reads and the librarian check on writes. */
  lemma ReadOnlySplitsOnMethod(r: Request)
    ensures IsLibrarianOrReadOnly(r) == if r.verb in SafeMethods then IsMember(r) else IsLibrarian(r)
  {
  }

  /**
   * IsLibrarianOrMemberReadOnly is the member check on reads and on the
   * borrow and return actions, and the librarian check on any other write.
   */
  lemma MemberReadOnlySplitsOnAction(r: Request)
    ensures IsLibrarianOrMemberReadOnly(r) ==
      if r.verb in SafeMethods || r.action in MemberActions then IsMember(r) else IsLibrarian(r)
  {
  }

  /** An authenticated non-staff user may write borrow records only through borrow and return_book. */
  lemma MemberWritesOnlyLoans(r: Request)
    requires r.user.authenticated && !r.user.isStaff && r.verb !in SafeMethods
    ensures IsLibrarianOrMemberReadOnly(r) <==> r.action == "borrow" || r.action == "return_book"
  {
  }

  /** Nobody unauthenticated gets through any of the four checks, whatever the method. */
  lemma UnauthenticatedDenied(r: Request)
    requires !r.user.authenticated
    ensures !IsLibrarian(r) && !IsMember(r)
    ensures !IsLibrarianOrReadOnly(r) && !IsLibrarianOrMemberReadOnly(r)
  {
  }

  /** Whatever an authenticated member may do, an authenticated librarian may do too. */
  lemma StaffMonotone(r: Request)
    ensures var member := r.(user := User(true, false));
      var librarian := r.(user := User(true, true));
      && (IsLibrarian(member) ==> IsLibrarian(librarian))
      && (IsMember(member) ==> IsMember(librarian))
      && (IsLibrarianOrReadOnly(member) ==> IsLibrarianOrReadOnly(librarian))
      && (IsLibrarianOrMemberReadOnly(member) ==> IsLibrarianOrMemberReadOnly(librarian))
  {
  }

  /** The checks are ordered from strictest to most permissive. */
  lemma ChecksOrdered(r: Request)
    ensures IsLibrarian(r) ==> IsLibrarianOrReadOnly(r)
    ensures IsLibrarianOrReadOnly(r) ==> IsLibrarianOrMemberReadOnly(r)
    ensures IsLibrarianOrMemberReadOnly(r) ==> IsMember(r)
  {
  }

  /**
   * The outcomes the HTTP test script expects: without a token, books and
   * authors are refused; a member may list books but not create one, may
   * not list members, and may borrow; a librarian may create books and
   * authors and list members.
   */
  lemma ScriptedOutcomes()
    ensures !Allowed(Books, Request(User(false, false), "GET", "list"))
    ensures !Allowed(Authors, Request(User(false, false), "GET", "list"))
    ensures Allowed(Books, Request(User(true, false), "GET", "list"))
    ensures !Allowed(Books, Request(User(true, false), "POST", "create"))
    ensures !Allowed(Members, Request(User(true, false), "GET", "list"))
    ensures Allowed(BorrowRecords, Request(User(true, false), "POST", "borrow"))
    ensures Allowed(Books, Request(User(true, true), "POST", "create"))
    ensures Allowed(Authors, Request(User(true, true), "POST", "create"))
    ensures Allowed(Members, Request(User(true, true), "GET", "list"))
  {
  }
}
