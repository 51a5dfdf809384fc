/** Relay admission (crates/core/src/admission.rs). URL normalisation is a parameter:
    it maps a relay URL or host to its comparison form, or fails. */
module Admission {
  import opened Wrappers
  import opened Tags
  import opened Reading
  import opened Announcement
  import opened RepoEvents
  import opened EventRefs
  import opened EventFilters

  datatype RejectClass = NoRelayHost | NoCloneTags | NoRelayTags | HostNotListed

  datatype AdmissionDecision =
    | Accept
    | Reject(reason: RejectClass)
    | RequiresRelatedEvents(filters: seq<EventFilter>)

  type Normaliser = string -> Option<string>

  /** Some listed relay normalises to the host's form; relays that do not normalise are skipped. */
  function ListsGraspHost(a: RepoAnnouncement, host: string, normalise: Normaliser): (r: Result<bool, CoreError>) {
    match normalise(host)
    case None => Err(InvalidField("grasp_url"))
    case Some(h) => Ok(exists i :: 0 <= i < |a.relays| && normalise(a.relays[i]) == Some(h))
  }

  function EvaluateAdmission(
    kind: nat, pubkey: string, eventId: string, tags: seq<Tag>, relayHost: Option<string>, normalise: Normaliser
  ): (r: Result<AdmissionDecision, CoreError>) {
    if kind == KIND_REPO_STATE then Ok(Accept)
    else if kind == KIND_REPO_ANNOUNCEMENT then
      match relayHost
      case None => Ok(Reject(NoRelayHost))
      case Some(host) =>
        match Announcement.Parse(tags)
        case Err(e) => Err(e)
        case Ok(a) =>
          if a.clone == [] then Ok(Reject(NoCloneTags))
          else if a.relays == [] then Ok(Reject(NoRelayTags))
          else
            match ListsGraspHost(a, host, normalise)
            case Err(e) => Err(e)
            case Ok(listed) => Ok(if listed then Accept else Reject(HostNotListed))
    else Ok(RequiresRelatedEvents(RelatedFilters(ReferencesWithSelf(kind, pubkey, eventId, tags))))
  }

  /** Some value of the tag. */
  ghost predicate CarriesSome(tags: seq<Tag>, name: string) {
    exists value :: Carries(tags, name, value)
  }

  /** Some value of the tag that normalises to the host. */
  ghost predicate CarriesHost(tags: seq<Tag>, name: string, host: string, normalise: Normaliser) {
    exists value :: Carries(tags, name, value) && normalise(value) == Some(host)
  }

  lemma ListedValues(tags: seq<Tag>, name: string)
    ensures UniqueValues(tags, name) == [] <==> !CarriesSome(tags, name)
    ensures forall value :: value in UniqueValues(tags, name) <==> Carries(tags, name, value)
  {
    DedupElements(Values(Named(tags, name)));
    forall value ensures value in UniqueValues(tags, name) <==> Carries(tags, name, value) {
      ValuesMember(tags, name, value);
    }
    if UniqueValues(tags, name) != [] {
      assert UniqueValues(tags, name)[0] in UniqueValues(tags, name);
    }
  }

  /** In terms of the raw tags: an announcement is admitted exactly when the relay's host is
      known and normalises, and the tags carry an identifier, a clone URL, and a relay that
      normalises to the host. */
  lemma AnnouncementAdmitted(
    pubkey: string, eventId: string, tags: seq<Tag>, relayHost: Option<string>, normalise: Normaliser)
    ensures EvaluateAdmission(KIND_REPO_ANNOUNCEMENT, pubkey, eventId, tags, relayHost, normalise) == Ok(Accept) <==>
            && relayHost.Some? && normalise(relayHost.value).Some?
            && (exists tag :: tag in tags && HasName(tag, "d") && |tag| >= 2)
            && CarriesSome(tags, "clone")
            && CarriesHost(tags, "relays", normalise(relayHost.value).value, normalise)
  {
    LastValueExists(tags, "d");
    ListedValues(tags, "clone");
    ListedValues(tags, "relays");
    if relayHost.Some? && normalise(relayHost.value).Some? {
      HostListed(tags, normalise(relayHost.value).value, normalise);
    }
  }

  lemma HostListed(tags: seq<Tag>, host: string, normalise: Normaliser)
    ensures var relays := UniqueValues(tags, "relays");
            (exists i :: 0 <= i < |relays| && normalise(relays[i]) == Some(host)) <==>
            CarriesHost(tags, "relays", host, normalise)
  {
    ListedValues(tags, "relays");
    var relays := UniqueValues(tags, "relays");
    if i :| 0 <= i < |relays| && normalise(relays[i]) == Some(host) {
      assert relays[i] in relays;
    }
    if value :| Carries(tags, "relays", value) && normalise(value) == Some(host) {
      assert value in relays;
    }
  }

  /** A kind other than an announcement or a state waits for related events, and the filters
      it waits for match exactly the events related to it. */
  lemma OthersNeedRelated(
    kind: nat, pubkey: string, eventId: string, tags: seq<Tag>, relayHost: Option<string>, normalise: Normaliser,
    e: Indexed)
    requires kind != 30617 && kind != 30618
    ensures var r := EvaluateAdmission(kind, pubkey, eventId, tags, relayHost, normalise);
            && r.Ok? && r.value.RequiresRelatedEvents?
            && r.value.filters == RelatedFilters(ReferencesWithSelf(kind, pubkey, eventId, tags))
            && (MatchesSome(r.value.filters, e) <==> IsRelated(kind, pubkey, eventId, tags, e))
  {
    RelatedByTags(kind, pubkey, eventId, tags, e);
  }

  lemma StatesAdmitted(
    pubkey: string, eventId: string, tags: seq<Tag>, relayHost: Option<string>, normalise: Normaliser)
    ensures EvaluateAdmission(30618, pubkey, eventId, tags, relayHost, normalise) == Ok(Accept)
  {
  }

  /** Some tag gives a value. */
  ghost predicate GivenSome(tags: seq<Tag>, read: Reader) {
    exists value :: Given(tags, read, value)
  }

  /** Every decision about an announcement, by the raw tags, in the order of the checks. */
  lemma AnnouncementDecision(
    pubkey: string, eventId: string, tags: seq<Tag>, relayHost: Option<string>, normalise: Normaliser)
    ensures EvaluateAdmission(30617, pubkey, eventId, tags, relayHost, normalise) ==
            if relayHost.None? then Ok(Reject(NoRelayHost))
            else if !GivenSome(tags, HeadOf("d")) then Err(MissingField("d"))
            else if !GivenSome(tags, SlotsOf("clone")) then Ok(Reject(NoCloneTags))
            else if !GivenSome(tags, SlotsOf("relays")) then Ok(Reject(NoRelayTags))
            else if normalise(relayHost.value).None? then Err(InvalidField("grasp_url"))
            else if exists relay :: Given(tags, SlotsOf("relays"), relay)
                                    && normalise(relay) == normalise(relayHost.value) then Ok(Accept)
            else Ok(Reject(HostNotListed))
  {
    ParsedParts(tags);
    if relayHost.Some? && Announcement.Parse(tags).Ok? {
      HostDecision(Announcement.Parse(tags).value, tags, relayHost.value, normalise);
    }
  }

  lemma ParsedParts(tags: seq<Tag>)
    ensures Announcement.Parse(tags) == Err(MissingField("d")) <==> !GivenSome(tags, HeadOf("d"))
    ensures Announcement.Parse(tags).Ok? <==> GivenSome(tags, HeadOf("d"))
    ensures Announcement.Parse(tags).Ok? ==>
              var a := Announcement.Parse(tags).value;
              && a.relays == UniqueValues(tags, "relays")
              && (a.clone == [] <==> !GivenSome(tags, SlotsOf("clone")))
              && (a.relays == [] <==> !GivenSome(tags, SlotsOf("relays")))
  {
    IdentifierGiven(tags);
    ReadsValues(tags, "clone");
    ReadsValues(tags, "relays");
    EmptyIffNotGiven(UniqueValues(tags, "clone"), tags, SlotsOf("clone"));
    EmptyIffNotGiven(UniqueValues(tags, "relays"), tags, SlotsOf("relays"));
  }

  lemma HostDecision(a: RepoAnnouncement, tags: seq<Tag>, host: string, normalise: Normaliser)
    requires a.relays == UniqueValues(tags, "relays")
    ensures ListsGraspHost(a, host, normalise) ==
            if normalise(host).None? then Err(InvalidField("grasp_url"))
            else Ok(exists relay :: Given(tags, SlotsOf("relays"), relay) && normalise(relay) == normalise(host))
  {
    if normalise(host).Some? {
      RelayGiven(tags, normalise(host).value, normalise);
    }
  }

  lemma IdentifierGiven(tags: seq<Tag>)
    ensures LastValue(tags, "d").Some? <==> GivenSome(tags, HeadOf("d"))
  {
    ReadsLast(tags, "d");
    if LastValue(tags, "d").Some? {
      assert Given(tags, HeadOf("d"), LastValue(tags, "d").value);
    }
  }

  lemma EmptyIffNotGiven(list: seq<string>, tags: seq<Tag>, read: Reader)
    requires FirstOccurrences(list, tags, read)
    ensures list == [] <==> !GivenSome(tags, read)
  {
    if list != [] {
      assert list[0] in list;
    }
  }

  lemma RelayGiven(tags: seq<Tag>, host: string, normalise: Normaliser)
    ensures var relays := UniqueValues(tags, "relays");
            (exists i :: 0 <= i < |relays| && normalise(relays[i]) == Some(host)) <==>
            exists relay :: Given(tags, SlotsOf("relays"), relay) && normalise(relay) == Some(host)
  {
    ReadsValues(tags, "relays");
    var relays := UniqueValues(tags, "relays");
    if i :| 0 <= i < |relays| && normalise(relays[i]) == Some(host) {
      assert relays[i] in relays;
    }
    if relay :| Given(tags, SlotsOf("relays"), relay) && normalise(relay) == Some(host) {
      assert relay in relays;
    }
  }
}
