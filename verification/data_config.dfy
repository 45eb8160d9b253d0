/**
  The message algebra of data_internal.h: the wrappers that every layer uses
  around the application's two merge callbacks.

  A user key is represented by its rank in the order of `key_compare`; the code
  below only ever compares keys.
 */
module DataConfig {
  import opened Wrappers

  type Key = int

  /** A search target: a user key or one of the two infinities. */
  datatype Target = NegativeInfinity | User(key: Key) | PositiveInfinity

  datatype MessageType = Insert | Update | Delete

  datatype Message = Message(cls: MessageType, data: string)

  datatype Pair = Pair(key: Key, msg: Message)

  /** The two callbacks of `data_config`, seen as functions of their inputs. */
  datatype Config = Config(
    mergeTuples: (Key, Message, Message) -> Message,
    mergeTuplesFinal: (Key, Message) -> Message)

  predicate Definitive(m: Message) {
    m.cls == Insert || m.cls == Delete
  }

  /** `data_merge_tuples`: merge an older message into a newer one. */
  function MergeTuples(cfg: Config, k: Key, older: Message, newer: Message): Message {
    if Definitive(newer) then newer
    else if older.cls == Delete then cfg.mergeTuplesFinal(k, newer)
    else cfg.mergeTuples(k, older, newer)
  }

  /** `data_merge_tuples_final`: resolve the oldest message for a key. */
  function MergeTuplesFinal(cfg: Config, k: Key, oldest: Message): Message {
    if Definitive(oldest) then oldest else cfg.mergeTuplesFinal(k, oldest)
  }

  /** What data.h requires of `merge_tuples_final`: it leaves no UPDATE behind. */
  ghost predicate FinalResolves(cfg: Config) {
    forall k, u: Message | u.cls == Update :: Definitive(cfg.mergeTuplesFinal(k, u))
  }

  /** An UPDATE applied to an INSERT is fully resolved. */
  ghost predicate InsertResolves(cfg: Config) {
    forall k, i: Message, u: Message | i.cls == Insert && u.cls == Update ::
      Definitive(cfg.mergeTuples(k, i, u))
  }

  /** Two UPDATEs may be combined before or after they reach an older INSERT or UPDATE. */
  ghost predicate UpdatesCompose(cfg: Config) {
    forall k, o: Message, u: Message, v: Message | o.cls != Delete && u.cls == Update && v.cls == Update ::
      var uv := cfg.mergeTuples(k, u, v);
      var ou := cfg.mergeTuples(k, o, u);
      (if Definitive(uv) then uv else cfg.mergeTuples(k, o, uv))
      == (if ou.cls == Delete then cfg.mergeTuplesFinal(k, v) else cfg.mergeTuples(k, ou, v))
  }

  /** Two UPDATEs may be combined before or after the older one is resolved with nothing below it. */
  ghost predicate FinalComposes(cfg: Config) {
    forall k, u: Message, v: Message | u.cls == Update && v.cls == Update ::
      var uv := cfg.mergeTuples(k, u, v);
      var fu := cfg.mergeTuplesFinal(k, u);
      (if Definitive(uv) then uv else cfg.mergeTuplesFinal(k, uv))
      == (if fu.cls == Delete then cfg.mergeTuplesFinal(k, v) else cfg.mergeTuples(k, fu, v))
  }

  ghost predicate CallbackLaws(cfg: Config) {
    InsertResolves(cfg) && UpdatesCompose(cfg) && FinalComposes(cfg)
  }

  ghost predicate MergeAssociative(cfg: Config) {
    forall k, a: Message, b: Message, c: Message :: AssociativeAt(cfg, k, a, b, c)
  }

  /** `a` is the oldest of the three messages, `c` the newest. */
  ghost predicate AssociativeAt(cfg: Config, k: Key, a: Message, b: Message, c: Message) {
    MergeTuples(cfg, k, a, MergeTuples(cfg, k, b, c)) == MergeTuples(cfg, k, MergeTuples(cfg, k, a, b), c)
  }

  /**
    The order in which messages of one key are merged does not matter exactly
    when the application's callbacks obey the three laws above.
   */
  lemma AssociativeIffCallbackLaws(cfg: Config)
    requires FinalResolves(cfg)
    ensures MergeAssociative(cfg) <==> CallbackLaws(cfg)
  {
    if MergeAssociative(cfg) {
      forall k, i: Message, u: Message | i.cls == Insert && u.cls == Update
        ensures Definitive(cfg.mergeTuples(k, i, u))
      {
        assert AssociativeAt(cfg, k, Message(Delete, ""), i, u);
      }
      forall k, o: Message, u: Message, v: Message | o.cls != Delete && u.cls == Update && v.cls == Update
        ensures var uv := cfg.mergeTuples(k, u, v);
                var ou := cfg.mergeTuples(k, o, u);
                (if Definitive(uv) then uv else cfg.mergeTuples(k, o, uv))
                == (if ou.cls == Delete then cfg.mergeTuplesFinal(k, v) else cfg.mergeTuples(k, ou, v))
      {
        assert AssociativeAt(cfg, k, o, u, v);
      }
      forall k, u: Message, v: Message | u.cls == Update && v.cls == Update
        ensures var uv := cfg.mergeTuples(k, u, v);
                var fu := cfg.mergeTuplesFinal(k, u);
                (if Definitive(uv) then uv else cfg.mergeTuplesFinal(k, uv))
                == (if fu.cls == Delete then cfg.mergeTuplesFinal(k, v) else cfg.mergeTuples(k, fu, v))
      {
        assert AssociativeAt(cfg, k, Message(Delete, ""), u, v);
      }
    }
  }
}
