/** The entries of the Pokémon dataset and the criteria a selection is made
    with. Field values are kept as the strings the dataset holds, because
    the generator compares them as strings ('Ultra Beast' with a space,
    'lowest', 'middle', 'highest'). */
module Records {

  datatype Option<T> = None | Some(value: T)

  /** The six base stats of an entry. */
  datatype Stats = Stats(hp: int, atk: int, def: int, spa: int, spd: int, spe: int)

  /** One move tuple `[name, power, acc, heal]` of an entry. */
  datatype Move = Move(name: string, power: int, accuracy: int, heal: int)

  /** One dataset entry. `stats` may be absent; the statistic table then
      shows nothing. */
  datatype Record = Record(
    name: string,
    category: string,
    habitat: string,
    evolution: string,
    types: seq<string>,
    stats: Option<Stats>,
    moves: seq<Move>)

  /** The five user choices read for one selection. */
  datatype Criteria = Criteria(
    occasion: string,
    typeFilter: string,
    evolution: string,
    includeLegendary: bool,
    includeUltraBeast: bool)

  /** The choice value that switches a filter off. */
  const All: string := "all"
}
