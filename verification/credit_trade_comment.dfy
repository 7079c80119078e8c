/** Who may comment on a credit trade, and who may see or change an existing
    comment. */
module CreditTradeCommentPermissions {
  import opened Support

  /** What the user's organization is to the trade. */
  datatype Relationship = Initiator | Respondent | GovernmentAnalyst | GovernmentDirector

  /** A key of the decision table: the relationship (none when the user is
      no party to the trade), the trade's status, whether the trade is
      rescinded, and whether the comment is privileged. */
  datatype Key = Key(relationship: Option<Relationship>, status: string, rescinded: bool, privileged: bool)

  /** The keys the table maps to True. */
  const ActionMapping: set<Key> := {
    Key(Some(Initiator), "Draft", false, false),
    Key(Some(Initiator), "Submitted", true, false),
    Key(Some(Initiator), "Accepted", true, false),
    Key(Some(Initiator), "Recommended", true, false),
    Key(Some(Initiator), "Not Recommended", true, false),

    Key(Some(Respondent), "Submitted", false, false),
    Key(Some(Respondent), "Accepted", true, false),
    Key(Some(Respondent), "Recommended", true, false),
    Key(Some(Respondent), "Not Recommended", true, false),

    Key(Some(GovernmentAnalyst), "Accepted", false, false),
    Key(Some(GovernmentAnalyst), "Recommended", false, false),
    Key(Some(GovernmentAnalyst), "Not Recommended", false, false),
    Key(Some(GovernmentAnalyst), "Accepted", true, false),
    Key(Some(GovernmentAnalyst), "Recommended", true, false),
    Key(Some(GovernmentAnalyst), "Not Recommended", true, false),
    Key(Some(GovernmentAnalyst), "Accepted", false, true),
    Key(Some(GovernmentAnalyst), "Recommended", false, true),
    Key(Some(GovernmentAnalyst), "Not Recommended", false, true),
    Key(Some(GovernmentAnalyst), "Accepted", true, true),
    Key(Some(GovernmentAnalyst), "Recommended", true, true),
    Key(Some(GovernmentAnalyst), "Not Recommended", true, true),

    Key(Some(GovernmentDirector), "Recommended", false, false),
    Key(Some(GovernmentDirector), "Not Recommended", false, false),
    Key(Some(GovernmentDirector), "Recommended", true, false),
    Key(Some(GovernmentDirector), "Not Recommended", true, false),
    Key(Some(GovernmentDirector), "Recommended", false, true),
    Key(Some(GovernmentDirector), "Not Recommended", false, true),
    Key(Some(GovernmentDirector), "Recommended", true, true),
    Key(Some(GovernmentDirector), "Not Recommended", true, true)
  }

  /** The table lookup; a key that is not listed maps to False. */
  predicate Allowed(k: Key)
  {
    k in ActionMapping
  }

  /** A status a trade reaches once the respondent has accepted it. */
  predicate PastAcceptance(status: string)
  {
    status == "Accepted" || status == "Recommended" || status == "Not Recommended"
  }

  /** A status on which the director has a decision to make. */
  predicate Reviewed(status: string)
  {
    status == "Recommended" || status == "Not Recommended"
  }

  /** The table, rule by rule: nobody outside the trade may comment; the
      parties never privately; the initiator on its unrescinded draft, the
      respondent on an unrescinded submission, either party on a rescinded
      trade that was submitted or went further; an analyst on any trade
      past acceptance; a director on a reviewed trade. */
  lemma AllowedRules(k: Key)
    ensures Allowed(k) <==>
      match k.relationship
      case None => false
      case Some(Initiator) =>
        !k.privileged && ((k.status == "Draft" && !k.rescinded)
                          || (k.rescinded && (k.status == "Submitted" || PastAcceptance(k.status))))
      case Some(Respondent) =>
        !k.privileged && ((k.status == "Submitted" && !k.rescinded) || (k.rescinded && PastAcceptance(k.status)))
      case Some(GovernmentAnalyst) => PastAcceptance(k.status)
      case Some(GovernmentDirector) => Reviewed(k.status)
  {
  }

  /** Default deny: a user who is no party to the trade may not comment. */
  lemma NoRelationshipDenied(status: string, rescinded: bool, privileged: bool)
    ensures !Allowed(Key(None, status, rescinded, privileged))
  {
  }

  /** The parties to a trade never write privileged comments. */
  lemma PartiesNeverPrivileged(k: Key)
    requires k.relationship == Some(Initiator) || k.relationship == Some(Respondent)
    ensures !Allowed(k.(privileged := true))
  {
    AllowedRules(k.(privileged := true));
  }

  /** The initiator may comment on a draft only while it is not rescinded;
      the respondent on a submitted trade likewise. */
  lemma OpeningCommentsNotRescinded(rescinded: bool)
    ensures Allowed(Key(Some(Initiator), "Draft", rescinded, false)) <==> !rescinded
    ensures Allowed(Key(Some(Respondent), "Submitted", rescinded, false)) <==> !rescinded
  {
    AllowedRules(Key(Some(Initiator), "Draft", rescinded, false));
    AllowedRules(Key(Some(Respondent), "Submitted", rescinded, false));
  }

  /** A director may comment on a reviewed trade, whatever the rescinded and
      privileged flags, and on nothing else. */
  lemma DirectorOnlyOnReviewed(k: Key)
    requires k.relationship == Some(GovernmentDirector)
    ensures Allowed(k) <==> Reviewed(k.status)
  {
    AllowedRules(k);
  }

  // ---------------------------------------------------------------------
  // The user and the trade

  const RecommendCreditTransfer := "RECOMMEND_CREDIT_TRANSFER"
  const ApproveCreditTransfer := "APPROVE_CREDIT_TRANSFER"
  const DeclineCreditTransfer := "DECLINE_CREDIT_TRANSFER"
  const ViewPrivilegedComments := "VIEW_PRIVILEGED_COMMENTS"
  const EditPrivilegedComments := "EDIT_PRIVILEGED_COMMENTS"

  /** The id of the government's own organization. */
  const GovernmentOrganization := 1

  datatype Role = Role(isGovernmentRole: bool)

  /** A user: its id, its organization's id, its role if any, and the
      permissions it holds. */
  datatype User = User(id: int, organizationId: int, role: Option<Role>, permissions: set<string>)

  datatype CreditTrade = CreditTrade(id: int, initiatorId: int, respondentId: int, status: string, isRescinded: bool)

  predicate IsGovernment(user: User)
  {
    user.organizationId == GovernmentOrganization
  }

  predicate MayRecommend(user: User)
  {
    RecommendCreditTransfer in user.permissions
  }

  predicate MayDecide(user: User)
  {
    ApproveCreditTransfer in user.permissions || DeclineCreditTransfer in user.permissions
  }

  /** The user's relationship to the trade. The checks run in order and a
      later match replaces an earlier one. */
  function ResolveRelationship(user: User, trade: CreditTrade): (r: Option<Relationship>)
  {
    var r0 := None;
    var r1 := if trade.initiatorId == user.organizationId then Some(Initiator) else r0;
    var r2 := if trade.respondentId == user.organizationId then Some(Respondent) else r1;
    var r3 := if IsGovernment(user) && MayRecommend(user) then Some(GovernmentAnalyst) else r2;
    if IsGovernment(user) && MayDecide(user) then Some(GovernmentDirector) else r3
  }

  /** Precedence: director over analyst over respondent over initiator, and
      the two government relationships only within the government's own
      organization. */
  lemma RelationshipPrecedence(user: User, trade: CreditTrade)
    ensures ResolveRelationship(user, trade) == Some(GovernmentDirector) <==> IsGovernment(user) && MayDecide(user)
    ensures ResolveRelationship(user, trade) == Some(GovernmentAnalyst)
        <==> IsGovernment(user) && MayRecommend(user) && !MayDecide(user)
    ensures ResolveRelationship(user, trade) == Some(Respondent)
        <==> trade.respondentId == user.organizationId && !(IsGovernment(user) && (MayRecommend(user) || MayDecide(user)))
    ensures ResolveRelationship(user, trade) == Some(Initiator)
        <==> trade.initiatorId == user.organizationId && trade.respondentId != user.organizationId
             && !(IsGovernment(user) && (MayRecommend(user) || MayDecide(user)))
    ensures ResolveRelationship(user, trade).None?
        <==> trade.initiatorId != user.organizationId && trade.respondentId != user.organizationId
             && !(IsGovernment(user) && (MayRecommend(user) || MayDecide(user)))
  {
  }

  /** `user_can_comment`. A privileged comment is only ever allowed to a
      user of the government's organization, and an allowed user is always
      a party to the trade or a government reviewer. */
  function UserCanComment(user: User, trade: CreditTrade, privileged: bool): (allowed: bool)
    ensures allowed ==> ResolveRelationship(user, trade).Some?
    ensures allowed && privileged ==> IsGovernment(user)
    ensures allowed && !IsGovernment(user) ==>
      trade.initiatorId == user.organizationId || trade.respondentId == user.organizationId
  {
    var k := Key(ResolveRelationship(user, trade), trade.status, trade.isRescinded, privileged);
    AllowedRules(k);
    Allowed(k)
  }

  // ---------------------------------------------------------------------
  // Requests

  /** A request: its HTTP method, its user, and the `privileged_access` and
      `credit_trade` fields of its body when present. */
  datatype Request = Request(verb: string, user: User, privilegedAccess: Option<bool>, creditTrade: Option<int>)

  /** `has_permission`, checked before a comment exists. `organizationTrades`
      are the trades the user's organization may see, in the order the
      query returns them. */
  function HasPermission(req: Request, organizationTrades: seq<CreditTrade>): (allowed: bool)
    ensures req.verb != "POST" ==> allowed
    ensures req.verb == "POST" && (req.privilegedAccess.None? || req.creditTrade.None?) ==> !allowed
    ensures (req.verb == "POST" && req.creditTrade.Some? &&
             forall i :: 0 <= i < |organizationTrades| ==> organizationTrades[i].id != req.creditTrade.value) ==> !allowed
    ensures req.verb == "POST" && allowed ==>
      exists i :: 0 <= i < |organizationTrades| && organizationTrades[i].id == req.creditTrade.value
        && UserCanComment(req.user, organizationTrades[i], req.privilegedAccess.value)
  {
    if req.verb != "POST" then true
    else if req.privilegedAccess.None? || req.creditTrade.None? then false
    else
      var found := Find(organizationTrades, (t: CreditTrade) => t.id == req.creditTrade.value);
      if found.None? then false
      else UserCanComment(req.user, organizationTrades[found.value], req.privilegedAccess.value)
  }

  /** A POST with both fields is decided by the first visible trade with
      the requested id. */
  lemma HasPermissionUsesFirstMatch(req: Request, organizationTrades: seq<CreditTrade>, i: nat)
    requires req.verb == "POST" && req.privilegedAccess.Some? && req.creditTrade.Some?
    requires i < |organizationTrades| && organizationTrades[i].id == req.creditTrade.value
    requires forall j :: 0 <= j < i ==> organizationTrades[j].id != req.creditTrade.value
    ensures HasPermission(req, organizationTrades)
        == UserCanComment(req.user, organizationTrades[i], req.privilegedAccess.value)
  {
    FindIsFirst(organizationTrades, (t: CreditTrade) => t.id == req.creditTrade.value, i);
  }

  /** A comment: the user who wrote it and whether it is privileged. */
  datatype Comment = Comment(createUser: User, privilegedAccess: bool)

  /** Django REST framework's `SAFE_METHODS`. */
  predicate SafeMethod(verb: string)
  {
    verb == "GET" || verb == "HEAD" || verb == "OPTIONS"
  }

  predicate IsGovernmentRole(user: User)
  {
    user.role.Some? && user.role.value.isGovernmentRole
  }

  /** `has_object_permission`, checked on an existing comment. */
  function HasObjectPermission(req: Request, comment: Comment): (allowed: bool)
    ensures comment.createUser.id == req.user.id ==> allowed
    ensures comment.createUser.organizationId == req.user.organizationId && SafeMethod(req.verb) ==> allowed
    ensures allowed ==>
      || comment.createUser.id == req.user.id
      || (comment.createUser.organizationId == req.user.organizationId && SafeMethod(req.verb))
      || IsGovernmentRole(req.user)
  {
    if comment.createUser.id == req.user.id then true
    else if comment.createUser.organizationId == req.user.organizationId && SafeMethod(req.verb) then true
    else if IsGovernmentRole(req.user) then
      if SafeMethod(req.verb) then
        if comment.privilegedAccess then ViewPrivilegedComments in req.user.permissions else true
      else
        if comment.privilegedAccess then EditPrivilegedComments in req.user.permissions else true
    else false
  }

  /** A government user who is neither the author nor, for a read, a
      colleague of the author may read a privileged comment exactly with
      the view permission, write one exactly with the edit permission, and
      read or write any other comment. */
  lemma GovernmentAccess(req: Request, comment: Comment)
    requires IsGovernmentRole(req.user)
    requires comment.createUser.id != req.user.id
    requires !(comment.createUser.organizationId == req.user.organizationId && SafeMethod(req.verb))
    ensures !comment.privilegedAccess ==> HasObjectPermission(req, comment)
    ensures comment.privilegedAccess && SafeMethod(req.verb) ==>
      (HasObjectPermission(req, comment) <==> ViewPrivilegedComments in req.user.permissions)
    ensures comment.privilegedAccess && !SafeMethod(req.verb) ==>
      (HasObjectPermission(req, comment) <==> EditPrivilegedComments in req.user.permissions)
  {
  }
}
