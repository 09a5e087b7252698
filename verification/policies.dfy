/** The small decisions of library.js around the registry: the posting
    gate of `checkPostingPermissions`, who may see, change or hide a
    user's phone, the pagination of the administrators' user list and the
    masking of the voice-server API key in the settings screen. */
module Policies {
  import opened Wrappers
  import opened Errors
  import opened PhoneFormat
  import opened PhoneRegistry
  import Plugin

  // ---------------------------------------------------------------------
  // Posting gate

  /** The author of a post as `checkPostingPermissions` finds it: the hook's
      own uid, else the post's, else the topic's; 0 (falsy) means "try the
      next one", and 0 at the end means guest or system. */
  function PostingUid(dataUid: Uid, postUid: Option<Uid>, topicUid: Option<Uid>): (uid: Uid)
    ensures uid == 0 || uid == dataUid || postUid == Some(uid) || topicUid == Some(uid)
    ensures dataUid != 0 ==> uid == dataUid
    ensures uid == 0 <==>
              dataUid == 0 && (postUid.None? || postUid.value == 0) && (topicUid.None? || topicUid.value == 0)
  {
    if dataUid != 0 then dataUid
    else if postUid.Some? && postUid.value != 0 then postUid.value
    else if topicUid.Some? then topicUid.value
    else 0
  }

  datatype PostDecision = Allow | RequireVerification

  /** Whether the user holds a phone marked verified in their profile. */
  predicate HasVerifiedPhone(reg: Registry, uid: Uid) {
    GetUserPhone(reg, uid).Some? && GetUserPhone(reg, uid).value.verified
  }

  /** `checkPostingPermissions`: guests, the system, administrators and
      every user while the setting is off may post; anyone else needs a
      verified phone in their profile. */
  function PostingGate(reg: Registry, uid: Uid, blockUnverified: bool, isAdmin: bool): (d: PostDecision)
    ensures d == RequireVerification <==>
              uid != 0 && blockUnverified && !isAdmin && !HasVerifiedPhone(reg, uid)
  {
    if uid == 0 || !blockUnverified || isAdmin then Allow
    else match GetUserPhone(reg, uid)
      case None => RequireVerification
      case Some(data) => if data.verified then Allow else RequireVerification
  }

  /** A user created through the verified registration path may post. */
  lemma RegisteredUserMayPost(st: Plugin.State, phone: Input, uid: Uid, now: nat, blockUnverified: bool, isAdmin: bool)
    requires uid != 0 && Validate(phone)
    requires SavePhoneToUser(st.reg, uid, phone, true, now).0 == Success
    ensures PostingGate(Plugin.UserCreated(st, phone, uid, now).reg, uid, blockUnverified, isAdmin) == Allow
  {
    ValidNormalForm(phone);
  }

  /** Changing one's number through the profile leaves it unverified, so a
      user who is not an administrator may not post until it is verified
      again; removing it has the same effect. */
  lemma ChangedPhoneMustBeReverified(st: Plugin.State, uid: Uid, caller: Uid, callerIsAdmin: bool,
                                     phone: Input, now: nat)
    requires Plugin.UpdateUserPhone(st, uid, caller, callerIsAdmin, phone, now).0 == Success
    ensures var reg := Plugin.UpdateUserPhone(st, uid, caller, callerIsAdmin, phone, now).1.reg;
      PostingGate(reg, uid, true, false) == RequireVerification
  {
  }

  // ---------------------------------------------------------------------
  // Who may see, change or hide a phone

  /** The `showPhone` profile flag, stored as '1' or '0'; missing reads as
      hidden. */
  type Visibility = map<Uid, bool>

  function Shows(vis: Visibility, uid: Uid): bool {
    uid in vis && vis[uid]
  }

  /** The reply of `apiGetUserPhoneProfile` for a resolved user. */
  datatype ProfileView =
    | Hidden
    | Shown(phone: Option<string>, verified: bool, showPhone: bool, isOwner: bool)

  /** `apiGetUserPhoneProfile`: the owner, an administrator, or anyone when
      the owner made the phone public, sees it. */
  function ViewPhone(reg: Registry, vis: Visibility, uid: Uid, caller: Uid, callerIsAdmin: bool)
    : (r: Result<ProfileView, Error>)
    ensures uid == 0 <==> r == Err(UserNotFound)
    ensures r == Ok(Hidden) <==> uid != 0 && uid != caller && !callerIsAdmin && !Shows(vis, uid)
    ensures r.Ok? && r.value.Shown? ==>
              && r.value.isOwner == (uid == caller)
              && r.value.showPhone == Shows(vis, uid)
              && (r.value.phone.Some? <==> GetUserPhone(reg, uid).Some?)
              && (r.value.phone.Some? ==> r.value.phone.value == GetUserPhone(reg, uid).value.phone)
              && (r.value.verified <==> HasVerifiedPhone(reg, uid))
  {
    if uid == 0 then Err(UserNotFound)
    else if !(uid == caller || callerIsAdmin || Shows(vis, uid)) then Ok(Hidden)
    else
      match GetUserPhone(reg, uid)
      case None => Ok(Shown(None, false, Shows(vis, uid), uid == caller))
      case Some(data) => Ok(Shown(Some(data.phone), data.verified, Shows(vis, uid), uid == caller))
  }

  /** `apiUpdatePhoneVisibility`: only the owner, not an administrator. */
  function SetVisibility(vis: Visibility, uid: Uid, caller: Uid, show: bool): (out: (Status, Visibility))
    ensures uid == 0 ==> out == (Failure(UserNotFound), vis)
    ensures out.0 == Success <==> uid != 0 && uid == caller
    ensures out.0 == Success ==> Shows(out.1, uid) == show && out.1 - {uid} == vis - {uid}
    ensures out.0 != Success ==> out.1 == vis
  {
    if uid == 0 then (Failure(UserNotFound), vis)
    else if uid != caller then (Failure(Unauthorized), vis)
    else (Success, vis[uid := show])
  }

  /** Administrators may change anyone's phone but not anyone's visibility;
      the owner may do both. */
  lemma AdminMayChangeButNotHide(st: Plugin.State, vis: Visibility, uid: Uid, admin: Uid, show: bool, now: nat)
    requires uid != 0 && admin != uid
    ensures Plugin.UpdateUserPhone(st, uid, admin, true, Absent, now).0 == Success
    ensures Plugin.UpdateUserPhone(st, uid, admin, false, Absent, now).0 == Failure(Unauthorized)
    ensures SetVisibility(vis, uid, admin, show).0 == Failure(Unauthorized)
    ensures SetVisibility(vis, uid, uid, show).0 == Success
  {
  }

  /** Once the owner makes the phone public, any signed-in user or guest
      sees exactly the phone `getUserPhone` reports; once hidden, only the
      owner and administrators do. */
  lemma PublicPhoneIsSeenByAll(reg: Registry, vis: Visibility, uid: Uid, stranger: Uid)
    requires uid != 0 && stranger != uid
    ensures var v := SetVisibility(vis, uid, uid, true).1;
      && ViewPhone(reg, v, uid, stranger, false).Ok?
      && ViewPhone(reg, v, uid, stranger, false).value.Shown?
      && ViewPhone(reg, v, uid, stranger, false).value.phone ==
           (if GetUserPhone(reg, uid).Some? then Some(GetUserPhone(reg, uid).value.phone) else None)
    ensures var v := SetVisibility(vis, uid, uid, false).1;
      && ViewPhone(reg, v, uid, stranger, false) == Ok(Hidden)
      && ViewPhone(reg, v, uid, stranger, true) != Ok(Hidden)
      && ViewPhone(reg, v, uid, uid, false) != Ok(Hidden)
  {
  }

  // ---------------------------------------------------------------------
  // Administrators' user list

  /** `parseInt(x, 10) || d`: `None` stands for NaN, and 0 is falsy too. */
  function IntOr(x: Option<int>, d: int): (r: int)
    ensures r != 0 || d == 0
    ensures x.Some? && x.value != 0 ==> r == x.value
    ensures x.None? || x.value == 0 ==> r == d
  {
    if x.Some? && x.value != 0 then x.value else d
  }

  const DEFAULT_PAGE: int := 1
  const DEFAULT_PER_PAGE: int := 50

  /** The 0-based inclusive range of `users:phone` that one page asks for. */
  datatype Page = Page(page: int, perPage: int, start: int, stop: int)

  /** `apiAdminGetUsers`' arithmetic. */
  function Paginate(pageArg: Option<int>, perPageArg: Option<int>): (p: Page)
    ensures p.page != 0 && p.perPage != 0
    ensures p.stop - p.start + 1 == p.perPage
    ensures p.start == (p.page - 1) * p.perPage
    ensures pageArg.None? ==> p.page == DEFAULT_PAGE
    ensures perPageArg.None? ==> p.perPage == DEFAULT_PER_PAGE
  {
    var page := IntOr(pageArg, DEFAULT_PAGE);
    var perPage := IntOr(perPageArg, DEFAULT_PER_PAGE);
    var start := (page - 1) * perPage;
    Page(page, perPage, start, start + perPage - 1)
  }

  /** `Math.ceil(total / perPage)` for a count and a non-zero divisor of
      either sign. */
  function CeilDiv(total: nat, perPage: int): (r: int)
    requires perPage != 0
    ensures perPage > 0 ==> (r - 1) * perPage < total <= r * perPage
    ensures perPage < 0 ==> r * perPage <= total < (r - 1) * perPage
  {
    if perPage > 0 then (total + perPage - 1) / perPage
    else -(total / -perPage)
  }

  /** With positive arguments, consecutive pages follow each other without
      gap or overlap, and pages 1 to `totalPages` cover exactly the `total`
      entries: the last page starts inside the list and the next one past
      its end. */
  lemma PagesTile(page: int, perPage: int, total: nat)
    requires page >= 1 && perPage >= 1
    ensures var p := Paginate(Some(page), Some(perPage));
            var q := Paginate(Some(page + 1), Some(perPage));
      q.start == p.stop + 1 && p.start >= 0
    ensures var last := CeilDiv(total, perPage);
      && (total > 0 ==> last >= 1 && Paginate(Some(last), Some(perPage)).start < total)
      && total <= Paginate(Some(last + 1), Some(perPage)).start
  {
  }

  // ---------------------------------------------------------------------
  // Voice-server API key in the settings screen

  const KEY_MASK: string := "********"

  /** What the settings screen receives for the stored key. */
  function MaskKey(key: string): (shown: string)
    ensures shown == "" <==> key == ""
    ensures key != "" ==> shown == KEY_MASK
  {
    if key == "" then "" else KEY_MASK
  }

  /** The key `apiAdminSaveSettings` stores for a submitted value: the mask
      keeps the current key, a missing value clears it. */
  function KeyToStore(submitted: Option<string>, current: string): (stored: string)
    ensures submitted == Some(KEY_MASK) ==> stored == current
    ensures submitted.Some? && submitted.value != KEY_MASK ==> stored == submitted.value
    ensures submitted.None? ==> stored == ""
  {
    match submitted
    case None => ""
    case Some(s) => if s == KEY_MASK then current else s
  }

  /** Saving the settings screen unchanged keeps the stored key, whatever
      it is, and a key that is literally the mask can never be replaced by
      itself through the screen (it is read as "keep"). */
  lemma MaskRoundTrip(key: string, other: string)
    ensures KeyToStore(Some(MaskKey(key)), key) == key
    ensures KeyToStore(Some(KEY_MASK), other) == other
  {
  }
}
