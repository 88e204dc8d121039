/**
 * The three persistent record kinds of the engine (Node, Language, Descriptor), with the
 * defaults their Java constructors give them, and the per-call outcome that the source carries
 * in the transient `done`/`msg` fields.
 *
 * Identities are `int`s issued by the store. References between records are stored as ids
 * (the owning side of each JPA relation); the collections on the inverse side (`subs`,
 * `descriptors`) are derived from them, see modules Tree and Matrix.
 */
module Entities {
  import opened Wrappers

  /** A nullable Java `String`. */
  type Text = Option<string>

  /** A content topic; `parent` is the authoritative parent reference (None for a root). */
  datatype Node = Node(parent: Option<int>, note: Text, active: bool)

  /** A supported localization with its three state flags. */
  datatype Language = Language(
    code: Text, name: Text, note: Text,
    initial: bool, bydefault: bool, active: bool)

  /** The localized content of one (node, language) pair. */
  datatype Descriptor = Descriptor(
    node: Option<int>, language: Option<int>,
    title: Text, brief: Text, fullDescr: Text)

  /** `new Node()`: no parent, no note, active. */
  function NewNode(): Node
  {
    Node(None, None, true)
  }

  /** `new Language()`: neither initial nor default, active. */
  function NewLanguage(): Language
  {
    Language(None, None, None, false, false, true)
  }

  /** `new Descriptor()`: unlinked and with no content. */
  function NewDescriptor(): Descriptor
  {
    Descriptor(None, None, None, None, None)
  }

  /** True when `d` links node `n` with language `l`. */
  predicate Links(d: Descriptor, n: int, l: int)
  {
    d.node == Some(n) && d.language == Some(l)
  }

  /** A descriptor with no content yet. */
  predicate IsBlank(d: Descriptor)
  {
    d.title.None? && d.brief.None? && d.fullDescr.None?
  }

  /** One segment of the status message (`msg`), as a token instead of English text. */
  datatype Reason =
    | NodeAdded(parent: Option<int>, expanded: nat)
    | RelocationRefused(nodeId: int, destination: Option<int>)
    | DescriptorNotFound(descriptorId: int)
    | LanguageCreated
    | LanguageCreatedFromDefaults
    | AlreadyInitialized
    | LoneLanguage
    | Activated
    | DefaultCannotBeDeactivated
    | Deactivated
    | LoneActiveLanguage
    | InactiveCannotBeDefault
    | SetAsDefault(code: Text)
    | LanguageAdded(code: Text, nodesCovered: nat)
    | LanguageUpdated(code: Text)

  /**
   * What a service call hands back besides the stored record: the record's id, the `done`
   * flag (false on a soft failure) and the message segments in the order they were appended.
   */
  datatype Outcome = Outcome(id: int, done: bool, msg: seq<Reason>)
}
