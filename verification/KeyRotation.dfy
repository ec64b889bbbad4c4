/** Card lookup across key versions, seen from the enrolments that filled the card table. */
module KeyRotation {
  import opened Options
  import opened Words
  import opened Domain
  import opened FrameHandling
  import opened Decisions

  /** A card enrolled while a key version was current. */
  datatype Enrolment = Enrolment(keyVersion: U32, cardId: Text, role: Text)

  /** The stored text of an enrolled card. */
  function EnrolledText(p: Primitives, e: Enrolment): Text {
    Hex(p.hmac(p.cardPepper(e.keyVersion), e.cardId))
  }

  /** The card table after the enrolments, in order; a later one with the same hash replaces the role. */
  function CardTable(p: Primitives, enrolments: seq<Enrolment>): map<Text, Text> {
    if enrolments == [] then map[]
    else
      var last := |enrolments| - 1;
      var e := enrolments[last];
      CardTable(p, enrolments[..last])[EnrolledText(p, e) := e.role]
  }

  lemma {:induction false} TableHolds(p: Primitives, enrolments: seq<Enrolment>, hash: Text)
    ensures hash in CardTable(p, enrolments) <==>
            exists e :: e in enrolments && EnrolledText(p, e) == hash
  {
    hide EnrolledText;
    if enrolments != [] {
      var last := |enrolments| - 1;
      var front, e := enrolments[..last], enrolments[last];
      TableHolds(p, front, hash);
      assert hash in CardTable(p, enrolments) <==> hash in CardTable(p, front) || hash == EnrolledText(p, e);
      hide CardTable;
      assert enrolments == front + [e];
    }
  }

  /** Some enrolment of another card, or of this card under another version, has the HMAC block of this card under `kv`. */
  ghost predicate Coincidence(p: Primitives, enrolments: seq<Enrolment>, cardId: Text, kv: U32) {
    exists e :: e in enrolments && (e.cardId != cardId || e.keyVersion != kv)
                && p.hmac(p.cardPepper(e.keyVersion), e.cardId) == p.hmac(p.cardPepper(kv), cardId)
  }

  predicate Enrolled(enrolments: seq<Enrolment>, cardId: Text, kv: U32) {
    exists e :: e in enrolments && e.cardId == cardId && e.keyVersion == kv
  }

  lemma FoundExactly(p: Primitives, enrolments: seq<Enrolment>, cardId: Text, kv: U32)
    ensures CardHmac(p, kv, cardId) in CardTable(p, enrolments) <==>
            Enrolled(enrolments, cardId, kv) || Coincidence(p, enrolments, cardId, kv)
  {
    var block := p.hmac(p.cardPepper(kv), cardId);
    TableHolds(p, enrolments, CardHmac(p, kv, cardId));
    forall e: Enrolment
      ensures EnrolledText(p, e) == CardHmac(p, kv, cardId) <==> p.hmac(p.cardPepper(e.keyVersion), e.cardId) == block
    {
      HexReads(block);
      HexReads(p.hmac(p.cardPepper(e.keyVersion), e.cardId));
    }
    hide CardHmac, EnrolledText, CardTable;
  }

  /**
    The lookup names a text whose role it returns, and the text reads as the
    card's HMAC: under the version-1 pepper in static mode, under the current
    one if that knows the card or no pepper does, else under the one before.
   */
  lemma ResolvedCardExactly(p: Primitives, cfg: FrameHandlerConfig, store: Store, cardId: Text, currentKv: U32)
    requires currentKv >= 1
    ensures
      var (card, role) := ResolveCard(p, cfg, store, cardId, currentKv);
      var v := if cfg.staticPepper then 1 else currentKv;
      var current, read := Hex(p.hmac(p.cardPepper(v), cardId)), FromHex(card);
      && role == (if card in store.cardRoles then Some(store.cardRoles[card]) else None)
      && (current in store.cardRoles || role == None ==> read == Some(p.hmac(p.cardPepper(v), cardId)))
      && (role == None ==> current !in store.cardRoles)
      && (read != Some(p.hmac(p.cardPepper(v), cardId)) ==>
            && !cfg.staticPepper && cfg.allowPreviousKeyVersion && currentKv > 1
            && read == Some(p.hmac(p.cardPepper(currentKv - 1), cardId)))
  {
    CardHmacReads(p, if cfg.staticPepper then 1 else currentKv, cardId);
    if currentKv > 1 {
      CardHmacReads(p, currentKv - 1, cardId);
    }
    hide Hex, FromHex;
  }

  /**
    In versioned mode a card resolves exactly when it was enrolled under a
    version of the reader's band, or its hash under such a version coincides
    with that of another enrolment.
   */
  lemma ResolvesExactly(p: Primitives, cfg: FrameHandlerConfig, store: Store, enrolments: seq<Enrolment>,
                        cardId: Text, currentKv: U32)
    requires !cfg.staticPepper && currentKv >= 1 && store.cardRoles == CardTable(p, enrolments)
    ensures ResolveCard(p, cfg, store, cardId, currentKv).1.Some? <==>
            exists v: U32 :: VersionInBand(cfg, v, currentKv)
                             && (Enrolled(enrolments, cardId, v) || Coincidence(p, enrolments, cardId, v))
  {
    hide CardHmac, Enrolled, Coincidence, CardTable;
    FoundExactly(p, enrolments, cardId, currentKv);
    assert VersionInBand(cfg, currentKv, currentKv);
    if cfg.allowPreviousKeyVersion && currentKv > 1 {
      FoundExactly(p, enrolments, cardId, currentKv - 1);
      assert VersionInBand(cfg, currentKv - 1, currentKv);
    }
  }

  /**
    A card enrolled under version `v` alone resolves, barring a coincidence in
    the band, exactly while the reader is at `v`, or at `v + 1` with previous
    versions allowed: the band in which the handler takes frames keyed with `v`.
   */
  lemma ResolvesWhileInBand(p: Primitives, cfg: FrameHandlerConfig, store: Store, enrolments: seq<Enrolment>,
                            cardId: Text, v: U32, currentKv: U32)
    requires !cfg.staticPepper && currentKv >= 1 && v >= 1 && store.cardRoles == CardTable(p, enrolments)
    requires forall u: U32 :: Enrolled(enrolments, cardId, u) <==> u == v
    requires forall u: U32 :: VersionInBand(cfg, u, currentKv) ==> !Coincidence(p, enrolments, cardId, u)
    ensures ResolveCard(p, cfg, store, cardId, currentKv).1.Some? <==> VersionInBand(cfg, v, currentKv)
    ensures VersionInBand(cfg, v, currentKv) <==> KeyVersionAccepted(cfg, v, currentKv)
  {
    hide CardHmac, Enrolled, Coincidence, CardTable, ResolveCard;
    ResolvesExactly(p, cfg, store, enrolments, cardId, currentKv);
    KeyVersionBand(cfg, v, currentKv);
  }
}
