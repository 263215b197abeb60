/** DD254 authorization: the suggestions shown at review (dd254/store.go) and the
    auth_confirmed column of the audit export (visitrequest/export.go). Each has its own
    classification ranking. */
module VisitAuthorization {
  import opened Wrappers
  import opened Clock

  type FormId = nat
  type UserId = nat
  type TenantId = nat
  type VisitId = nat

  datatype Status = Active | Expired | Superseded

  datatype Form = Form(id: FormId, tenant: TenantId, classMax: string,
                       periodStart: Option<Day>, periodEnd: Option<Day>, status: Status)

  /** A row of dd254_user_access. */
  datatype Grant = Grant(briefed: Option<Day>, debriefed: Option<Day>)

  type Access = map<(FormId, UserId), Grant>

  datatype Visit = Visit(tenant: TenantId, createdBy: UserId, accessLevel: string, start: Day, end: Day,
                         dd254: Option<FormId>, reviewedAt: Option<Time>)

  datatype Reason = ExactClass | AboveClass

  datatype Suggestion = Suggestion(form: Form, reason: Reason)

  datatype Outcome = Done | NotFound | UserNotInTenant

  datatype Suggested = Suggestions(list: seq<Suggestion>) | NoSuchVisit

  /** classOrder of the Go code. */
  const CLASS_ORDER: map<string, nat> :=
    map["none" := 0, "confidential" := 1, "secret" := 2, "top_secret" := 3, "ts_sci" := 4]

  /** class_rank of the SQL query. */
  const CLASS_RANK: map<string, nat> :=
    map["none" := 0, "confidential" := 1, "secret" := 2, "top_secret" := 3, "ts_sci" := 4, "top_secret_sci" := 3]

  function GoRank(level: string): nat {
    if level in CLASS_ORDER then CLASS_ORDER[level] else 0
  }

  function SqlRank(level: string): nat {
    if level in CLASS_RANK then CLASS_RANK[level] else 0
  }

  /** Values of the clearance_level enum, the type of classification_max. */
  predicate ValidClassification(level: string) {
    level in {"none", "confidential", "secret", "top_secret", "ts_sci"}
  }

  // ---------- Suggestions ----------

  /** The WHERE and JOIN of SuggestForVisit. */
  predicate Candidate(f: Form, access: Access, tenant: TenantId, v: Visit) {
    && (f.id, v.createdBy) in access && access[(f.id, v.createdBy)].debriefed.None?
    && f.tenant == tenant && f.status == Active
    && (f.periodStart.None? || f.periodStart.value <= v.start)
    && (f.periodEnd.None? || f.periodEnd.value >= v.end)
  }

  function CandidateForms(forms: seq<Form>, access: Access, tenant: TenantId, v: Visit): seq<Form> {
    if forms == [] then []
    else
      var rest := CandidateForms(forms[..|forms| - 1], access, tenant, v);
      var f := forms[|forms| - 1];
      if Candidate(f, access, tenant, v) then rest + [f] else rest
  }

  /** The rank filter and the match reason. */
  function Ranked(forms: seq<Form>, required: nat): seq<Suggestion> {
    if forms == [] then []
    else
      var rest, f := Ranked(forms[..|forms| - 1], required), forms[|forms| - 1];
      if GoRank(f.classMax) < required then rest
      else rest + [Suggestion(f, if GoRank(f.classMax) == required then ExactClass else AboveClass)]
  }

  function SuggestionsFor(forms: seq<Form>, access: Access, tenant: TenantId, v: Visit): seq<Suggestion> {
    Ranked(CandidateForms(forms, access, tenant, v), GoRank(v.accessLevel))
  }

  /** The forms table refers to each form once. */
  ghost predicate UniqueIds(forms: seq<Form>) {
    forall i, j | 0 <= i < j < |forms| :: forms[i].id != forms[j].id
  }

  function FindForm(forms: seq<Form>, id: FormId): (r: Option<Form>)
    ensures r.Some? ==> r.value in forms && r.value.id == id
    ensures r.None? ==> forall f | f in forms :: f.id != id
  {
    if forms == [] then None
    else if forms[0].id == id then Some(forms[0])
    else FindForm(forms[1..], id)
  }

  class Dd254Store {
    const users: map<UserId, TenantId>
    var forms: seq<Form>
    var access: Access
    var visits: map<VisitId, Visit>

    constructor (users: map<UserId, TenantId>, forms: seq<Form>, visits: map<VisitId, Visit>)
      ensures this.users == users && this.forms == forms && this.visits == visits && access == map[]
    {
      this.users, this.forms, this.visits := users, forms, visits;
      access := map[];
    }

    /** Inserts or replaces the (form, user) grant after both have been found in the tenant. */
    method GrantAccess(tenant: TenantId, form: FormId, user: UserId, g: Grant) returns (r: Outcome)
      modifies this`access
      ensures r == if !(exists f | f in forms :: f.id == form && f.tenant == tenant) then NotFound
                   else if !(user in users && users[user] == tenant) then UserNotInTenant
                   else Done
      ensures access == if r == Done then old(access)[(form, user) := g] else old(access)
    {
      if !FormInTenant(forms, form, tenant) {
        return NotFound;
      }
      if user !in users || users[user] != tenant {
        return UserNotInTenant;
      }
      access := access[(form, user) := g];
      return Done;
    }

    method RevokeAccess(tenant: TenantId, form: FormId, user: UserId) returns (r: Outcome)
      modifies this`access
      ensures r == if (form, user) in old(access) && exists f | f in forms :: f.id == form && f.tenant == tenant
                   then Done else NotFound
      ensures access == if r == Done then old(access) - {(form, user)} else old(access)
    {
      if (form, user) !in access || !FormInTenant(forms, form, tenant) {
        return NotFound;
      }
      access := access - {(form, user)};
      return Done;
    }

    /** Links a form of the same tenant, or clears the link with None. */
    method SetVisitRequestDD254(tenant: TenantId, visit: VisitId, form: Option<FormId>) returns (r: Outcome)
      modifies this`visits
      ensures r == if (form.Some? && !exists f | f in forms :: f.id == form.value && f.tenant == tenant) ||
                      !(visit in old(visits) && old(visits)[visit].tenant == tenant) then NotFound
                   else Done
      ensures visits == if r == Done then old(visits)[visit := old(visits)[visit].(dd254 := form)] else old(visits)
    {
      if form.Some? && !FormInTenant(forms, form.value, tenant) {
        return NotFound;
      }
      if visit !in visits || visits[visit].tenant != tenant {
        return NotFound;
      }
      visits := visits[visit := visits[visit].(dd254 := form)];
      return Done;
    }

    method SuggestForVisit(tenant: TenantId, visit: VisitId) returns (r: Suggested)
      ensures r == if visit in visits && visits[visit].tenant == tenant
                   then Suggestions(SuggestionsFor(forms, access, tenant, visits[visit]))
                   else NoSuchVisit
    {
      if visit !in visits || visits[visit].tenant != tenant {
        return NoSuchVisit;
      }
      var v := visits[visit];
      var required := GoRank(v.accessLevel);
      var rows := CandidateForms(forms, access, tenant, v);
      var out: seq<Suggestion> := [];
      for i := 0 to |rows|
        invariant out == Ranked(rows[..i], required)
      {
        assert rows[..i + 1][..i] == rows[..i];
        var rank := GoRank(rows[i].classMax);
        if rank < required {
          continue;
        }
        out := out + [Suggestion(rows[i], if rank == required then ExactClass else AboveClass)];
      }
      assert rows[..|rows|] == rows;
      return Suggestions(out);
    }
  }

  predicate FormInTenant(forms: seq<Form>, id: FormId, tenant: TenantId) {
    exists f | f in forms :: f.id == id && f.tenant == tenant
  }

  // ---------- auth_confirmed ----------

  /** The CASE of the export query. */
  function AuthConfirmed(forms: seq<Form>, access: Access, v: Visit): bool {
    if v.dd254.None? || v.reviewedAt.None? then false
    else
      var d := FindForm(forms, v.dd254.value);
      if d.None? then false
      else if SqlRank(d.value.classMax) < SqlRank(v.accessLevel) then false
      else if d.value.periodStart.Some? && d.value.periodStart.value > v.start then false
      else if d.value.periodEnd.Some? && d.value.periodEnd.value < v.end then false
      else ReadOnAt(access, v.dd254.value, v.createdBy, DayOf(v.reviewedAt.value))
  }

  predicate ReadOnAt(access: Access, form: FormId, user: UserId, day: Day) {
    && (form, user) in access
    && (access[(form, user)].briefed.None? || access[(form, user)].briefed.value <= day)
    && (access[(form, user)].debriefed.None? || access[(form, user)].debriefed.value > day)
  }

  // ---------- The two agree ----------

  lemma {:induction false} CandidateFormsContain(forms: seq<Form>, access: Access, tenant: TenantId, v: Visit, f: Form)
    ensures multiset(CandidateForms(forms, access, tenant, v))[f] ==
            if Candidate(f, access, tenant, v) then multiset(forms)[f] else 0
  {
    if forms != [] {
      CandidateFormsContain(forms[..|forms| - 1], access, tenant, v, f);
      assert forms == forms[..|forms| - 1] + [forms[|forms| - 1]];
    }
  }

  lemma {:induction false} RankedContain(forms: seq<Form>, required: nat, s: Suggestion)
    ensures multiset(Ranked(forms, required))[s] ==
            if GoRank(s.form.classMax) >= required &&
               (s.reason == ExactClass <==> GoRank(s.form.classMax) == required)
            then multiset(forms)[s.form] else 0
  {
    if forms != [] {
      RankedContain(forms[..|forms| - 1], required, s);
      assert forms == forms[..|forms| - 1] + [forms[|forms| - 1]];
    }
  }

  /** What a suggestion means, independently of how the list is built: an active form of the
      tenant, valid over the whole visit, to which the visitor has a grant without a debriefing
      date, and whose rank is sufficient; each form is listed once, under one reason. */
  lemma SuggestedIff(forms: seq<Form>, access: Access, tenant: TenantId, v: Visit, s: Suggestion)
    requires UniqueIds(forms)
    ensures s in SuggestionsFor(forms, access, tenant, v) <==>
            && s.form in forms && s.form.tenant == tenant && s.form.status == Active
            && (forall d :: s.form.periodStart == Some(d) ==> d <= v.start)
            && (forall d :: s.form.periodEnd == Some(d) ==> v.end <= d)
            && (s.form.id, v.createdBy) in access && access[(s.form.id, v.createdBy)].debriefed == None
            && GoRank(s.form.classMax) >= GoRank(v.accessLevel)
            && (s.reason == ExactClass <==> GoRank(s.form.classMax) == GoRank(v.accessLevel))
    ensures multiset(SuggestionsFor(forms, access, tenant, v))[s] <= 1
  {
    CandidateFormsContain(forms, access, tenant, v, s.form);
    RankedContain(CandidateForms(forms, access, tenant, v), GoRank(v.accessLevel), s);
    assert s in SuggestionsFor(forms, access, tenant, v) <==>
           multiset(SuggestionsFor(forms, access, tenant, v))[s] > 0;
    assert s.form in forms <==> multiset(forms)[s.form] > 0;
    FormOnce(forms, s.form);
  }

  lemma {:induction false} FormOnce(forms: seq<Form>, f: Form)
    requires UniqueIds(forms)
    ensures multiset(forms)[f] <= 1
  {
    if forms != [] {
      var front := forms[..|forms| - 1];
      FormOnce(front, f);
      assert forms == front + [forms[|forms| - 1]];
      assert f == forms[|forms| - 1] ==> f !in front;
    }
  }

  /** The two tables rank every string alike except top_secret_sci. */
  lemma RankingsDifferOnlyOnTopSecretSci(level: string)
    ensures GoRank(level) == SqlRank(level) <==> level != "top_secret_sci"
  {
    if level == "top_secret_sci" {
      assert level !in CLASS_ORDER by {
        assert |level| == 14;
        assert |"none"| == 4 && |"confidential"| == 12 && |"secret"| == 6 && |"top_secret"| == 10 && |"ts_sci"| == 6;
      }
    }
  }

  /** The five levels are ranked in this order, and any other string like the lowest. */
  lemma RankOrder(level: string)
    ensures GoRank("none") < GoRank("confidential") < GoRank("secret") < GoRank("top_secret") < GoRank("ts_sci")
    ensures SqlRank("none") < SqlRank("confidential") < SqlRank("secret") < SqlRank("top_secret") < SqlRank("ts_sci")
    ensures SqlRank("top_secret_sci") == SqlRank("top_secret")
    ensures level != "confidential" && level != "secret" && level != "top_secret" && level != "ts_sci" ==>
              GoRank(level) == GoRank("none") &&
              (level != "top_secret_sci" ==> SqlRank(level) == SqlRank("none"))
  {
  }

  /** What auth_confirmed means: the visit is linked to a form and reviewed; the form's rank is
      sufficient and its period covers the whole visit; and on the day of the review the
      visitor's grant had begun and had not ended. */
  lemma ConfirmedIff(forms: seq<Form>, access: Access, v: Visit)
    requires UniqueIds(forms)
    ensures AuthConfirmed(forms, access, v) <==>
            && v.reviewedAt.Some?
            && exists f | f in forms ::
                 && v.dd254 == Some(f.id)
                 && SqlRank(f.classMax) >= SqlRank(v.accessLevel)
                 && (forall d :: f.periodStart == Some(d) ==> d <= v.start)
                 && (forall d :: f.periodEnd == Some(d) ==> v.end <= d)
                 && GrantHolds(access, f.id, v.createdBy, DayOf(v.reviewedAt.value))
  {
    if v.dd254.Some? {
      forall f | f in forms && v.dd254 == Some(f.id)
        ensures FindForm(forms, v.dd254.value) == Some(f)
      {
        UniqueForm(forms, f);
      }
    }
  }

  /** The grant exists; a briefing is not after the day, a debriefing is after it. */
  ghost predicate GrantHolds(access: Access, form: FormId, user: UserId, day: Day) {
    && (form, user) in access
    && (forall d :: access[(form, user)].briefed == Some(d) ==> d <= day)
    && (forall d :: access[(form, user)].debriefed == Some(d) ==> day < d)
  }

  /** Dating a grant: a debriefing on or before the review day ends the confirmation and a later
      one leaves it as it was; a briefing after the review day ends it and an earlier one leaves
      it as it was. So what happens to a grant after the review day does not matter. */
  lemma DatingAGrant(forms: seq<Form>, access: Access, v: Visit, id: FormId, g: Grant, d: Day)
    requires UniqueIds(forms) && v.dd254 == Some(id) && v.reviewedAt.Some?
    ensures var key, day := (id, v.createdBy), DayOf(v.reviewedAt.value);
            && (AuthConfirmed(forms, access[key := g.(debriefed := Some(d))], v) <==>
                d > day && AuthConfirmed(forms, access[key := g.(debriefed := None)], v))
            && (AuthConfirmed(forms, access[key := g.(briefed := Some(d))], v) <==>
                d <= day && AuthConfirmed(forms, access[key := g.(briefed := None)], v))
            && !AuthConfirmed(forms, access - {key}, v)
  {
  }

  lemma UniqueForm(forms: seq<Form>, f: Form)
    requires UniqueIds(forms) && f in forms
    ensures FindForm(forms, f.id) == Some(f)
  {
    var g := FindForm(forms, f.id).value;
    var i, j :| 0 <= i < |forms| && 0 <= j < |forms| && forms[i] == f && forms[j] == g;
    assert i == j;
  }

  /** A suggested form that is linked and reviewed with the same form and grant rows is
      confirmed by the export, exactly when the visitor was briefed by the review day (or
      has no briefing date) and the visit does not ask for top_secret_sci above the form. */
  lemma SuggestionIsConfirmed(forms: seq<Form>, access: Access, tenant: TenantId, v: Visit, s: Suggestion)
    requires UniqueIds(forms) && s in SuggestionsFor(forms, access, tenant, v)
    requires ValidClassification(s.form.classMax)
    requires v.dd254 == Some(s.form.id) && v.reviewedAt.Some?
    ensures (s.form.id, v.createdBy) in access
    ensures var g := access[(s.form.id, v.createdBy)];
            AuthConfirmed(forms, access, v) <==>
            && (g.briefed.None? || g.briefed.value <= DayOf(v.reviewedAt.value))
            && (v.accessLevel != "top_secret_sci" || s.form.classMax in {"top_secret", "ts_sci"})
  {
    SuggestedIff(forms, access, tenant, v, s);
    UniqueForm(forms, s.form);
    RankingsDifferOnlyOnTopSecretSci(v.accessLevel);
    RankingsDifferOnlyOnTopSecretSci(s.form.classMax);
  }

  /** A visit that asks for top_secret_sci is offered a secret form, and its export says it was
      not authorized by it. */
  lemma {:induction false} TopSecretSciIsSuggestedUnconfirmed(tenant: TenantId, user: UserId, day: Day, at: Time)
    ensures var f := Form(0, tenant, "secret", None, None, Active);
            var access: Access := map[(0, user) := Grant(None, None)];
            var v := Visit(tenant, user, "top_secret_sci", day, day, Some(0), Some(at));
            && Suggestion(f, AboveClass) in SuggestionsFor([f], access, tenant, v)
            && !AuthConfirmed([f], access, v)
  {
    var f := Form(0, tenant, "secret", None, None, Active);
    var access: Access := map[(0, user) := Grant(None, None)];
    var v := Visit(tenant, user, "top_secret_sci", day, day, Some(0), Some(at));
    RankingsDifferOnlyOnTopSecretSci("top_secret_sci");
    assert GoRank("secret") == 2;
    SuggestedIff([f], access, tenant, v, Suggestion(f, AboveClass));
    SuggestionIsConfirmed([f], access, tenant, v, Suggestion(f, AboveClass));
  }

  /** Conversely, a confirmed visit whose form is still active in the tenant and whose
      grant is not debriefed has that form among its suggestions. */
  lemma ConfirmedIsSuggested(forms: seq<Form>, access: Access, v: Visit, f: Form)
    requires UniqueIds(forms) && f in forms && ValidClassification(f.classMax)
    requires f.status == Active && f.tenant == v.tenant
    requires v.dd254 == Some(f.id) && AuthConfirmed(forms, access, v)
    requires (f.id, v.createdBy) in access ==> access[(f.id, v.createdBy)].debriefed.None?
    ensures exists s :: s in SuggestionsFor(forms, access, v.tenant, v) && s.form == f
  {
    UniqueForm(forms, f);
    RankingsDifferOnlyOnTopSecretSci(v.accessLevel);
    RankingsDifferOnlyOnTopSecretSci(f.classMax);
    var s := Suggestion(f, if GoRank(f.classMax) == GoRank(v.accessLevel) then ExactClass else AboveClass);
    SuggestedIff(forms, access, v.tenant, v, s);
  }
}
