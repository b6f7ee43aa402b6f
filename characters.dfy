/**
  The document shapes the repository stores: a `Character` with an owned
  class, race and inventory. They are plain property bags with no behaviour.
  Reference-typed C# properties that the store leaves unset (the document
  identity before the first commit, the image and sibling references) are
  optional; the owned records are always present.
 */
module Characters {
  import opened Wrappers

  /** An owned inventory entry: `Item { Name, Attack, Defence }`. */
  datatype Item = Item(name: string, attack: int, defence: int)

  /** `CharacterClass { Name }`. */
  datatype CharacterClass = CharacterClass(name: string)

  /** `Race { Name }`. */
  datatype Race = Race(name: string)

  /**
    `Character { Id, Name, Class, Race, Inverntory, ImageId, SiblingId }`.
    `id` is the document key (`Characters/N`), assigned by the store;
    `imageId` names an attachment and `siblingId` another character, both by key.
   */
  datatype Character = Character(
    id: Option<string>,
    name: string,
    characterClass: CharacterClass,
    race: Race,
    inventory: seq<Item>,
    imageId: Option<string>,
    siblingId: Option<string>)

  /** The character stored by the saving test, before the store gives it a key. */
  const MikeKeenan := Character(None, "Mike Keenan", CharacterClass("Developer"), Race("Robot"),
                                [Item("Flamethrower", 50, 0)], None, None)

  /** The character stored by the attachment test, pointing at the image attachment `images/1`. */
  const MikeKeenanWithImage := Character(None, "Mike Keenan", CharacterClass("Developer"), Race("Robot"),
                                         [Item("Flamethrower", 50, 0)], Some("images/1"), None)

  /**
    The two characters stored by the include test. The sibling points at the key the
    store gave the first one, which is not known here, so it is left unset.
   */
  const UserTwo := Character(None, "User 2", CharacterClass("Samurai"), Race("Alien"),
                             [Item("Throwing Knives", 8, 0)], None, None)
  const UserTwoSibling := Character(None, "User 2 Sibling", CharacterClass("Ninja"), Race("Alien"),
                                    [Item("RPG", 1000, 0)], None, None)

  /** Every character the tests store, in the order the tests are written. */
  const StoredCharacters := [MikeKeenan, MikeKeenanWithImage, UserTwo, UserTwoSibling]
}
