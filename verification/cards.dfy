/** Cards as the effect core sees them: only their type matters. */
module Cards {

  /** The card types the effects inspect by name; every other type of the
      catalogue is carried as `Other` with its name. */
  datatype CardType = ExplodingKitten | Defuse | Nope | Other(name: string)

  /** A physical card; the core reads nothing but its type. */
  datatype Card = Card(cardType: CardType)
}
