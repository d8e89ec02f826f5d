# Random Pokémon generator: selection engine

This project models the selection engine of the Alola random Pokémon generator (`script.js`). Each press of the generate button does four things:

- It keeps the dataset entries that pass the category gates (legendary and mythical entries, ultra beasts) and the habitat, evolution and type choices.
- It removes the names shown recently.
- It draws one entry at random. When every kept name was shown recently, it clears the history instead and draws from all kept entries.
- It records the drawn name in a first-in-first-out history of at most 8 names.

The model also covers the two tables shown for an entry. Stats and moves are kept as structured cells, not HTML.

Files:

- `records.dfy` (module `Records`): the dataset entry, its stats and moves, and the five user choices.
- `sequences.dfy` (module `Sequences`): order-preserving filtering (`Array.prototype.filter`), the subsequence relation, distinctness, and "last n elements".
- `selector.dfy` (module `Selection`): the filter predicate `Keep` and the filtered and available lists. It also has:
  - the random draws;
  - `Step`, the functional specification of one selection;
  - the `Selector` class, whose `history` field the `Select` method updates in place.
- `tables.dfy` (module `Tables`): the move-row cell rules, the move table (built by a loop, one row per move), and the stats table.

Modelling choices:

- Environment inputs become parameters:
  - The dataset is a parameter of `Select`. It is the value `loadPokemonData` would have stored.
  - The five DOM controls become a `Criteria` value.
  - Each `Math.random()` call is an exact fraction `num/den` in [0, 1). The first is the shiny roll and the second the index draw, the order the source calls them in. `Math.floor(Math.random() * n)` is the integer part of `num * n / den`.
- An empty dataset gives the distinct outcome `NotLoaded`, and the history is left alone.
- Category, habitat and evolution stay strings because the source compares them as strings. For example, an ultra beast must have the category `'Ultra Beast'`, with a space.
- The comment at line 91 of `script.js` says the habitat and evolution choices apply only to 'Standard' entries. The condition at line 94 exempts the `'Legendary'` and `'Ultra Beast'` categories and every entry that is neither `'Standard'` nor on an evolution line (`Selection.KeepExempt`). It does not exempt `'Mythical'` as such, so a `'Mythical'` entry whose evolution is `lowest`, `middle` or `highest` is subject to both choices (`Selection.MythicalOnEvolutionLineIsStandard`, `Selection.MythicalIsHabitatFiltered`). The model follows the code.

## Model

| member | source | states |
|---|---|---|
| `Sequences.Filter` | script.js:84 | the result holds exactly the elements of the input that pass the predicate, and is no longer than the input |
| `Sequences.FilterCounts` | script.js:84 | the result holds each passing element as many times as the input does, and no failing element |
| `Sequences.FilterIsSubsequence` | script.js:84-102 | filtering keeps the surviving elements in their original order (the result is a subsequence of the input) |
| `Selection.KeepIff` | script.js:84-102 | an entry is kept iff it passes the category gates, and, when it is in the standard branch, matches the habitat and evolution choices, and matches the type choice |
| `Selection.KeepStandard` | script.js:92-99 | for a standard-branch entry (category 'Standard' or a standard evolution stage, and neither 'Legendary' nor 'Ultra Beast'), being kept requires matching habitat, evolution and type choices, and the gates |
| `Selection.KeepExempt` | script.js:92-99 | an entry outside the standard branch passes the habitat and evolution choices unchecked; only the gates and the type choice decide |
| `Selection.MythicalOnEvolutionLineIsStandard` | script.js:92-96 | every 'Mythical' entry with evolution lowest, middle or highest is in the standard branch, so when kept it matches the habitat and evolution choices |
| `Selection.MythicalIsHabitatFiltered` | script.js:94-95 | a 'Mythical' entry on an evolution line is dropped by a habitat choice it does not match and kept by one it matches, even with legendary entries included |
| `Selection.FilteredSound` | script.js:84-102 | the filtered list is a subsequence of the dataset, holds exactly the kept entries with their multiplicity in the dataset, never holds a Legendary/Mythical entry unless they are included or an 'Ultra Beast' unless those are included; with a type choice every entry has that type; every standard-branch entry matches the habitat and evolution choices |
| `Selection.AvailableSound` | script.js:104 | the available list is a subsequence of the filtered list made of exactly the filtered entries whose name is not in the history, each as often as in the filtered list; it is empty iff every filtered name is in the history |
| `Selection.ScaleIndex` | script.js:126 | the scaled draw is an index below n whenever n > 0 |
| `Selection.ScaleIndexIsFloor` | script.js:126 | the scaled draw k is the floor of `random * n`: k·den ≤ num·n < (k+1)·den |
| `Selection.EveryIndexReachable` | script.js:126 | every index below n is the result of some draw |
| `Selection.ShinyIff` | script.js:82 | the shiny roll succeeds exactly when the draw lies in the first hundredth of [0, 1) |
| `Selection.Remember` | script.js:145-148 | pushing a name onto a history of at most 8 keeps the last 8 names of history + [name]; the result is non-empty, holds at most 8 names and ends with the name |
| `Selection.RememberAll` | script.js:145-148 | remembering any number of names never leaves more than 8 in the history |
| `Selection.RememberAllIsLastN` | script.js:145-148 | remembering names one after another leaves exactly the last 8 names of the old history followed by the new names |
| `Selection.NinthPickEvictsFirst` | script.js:2-3 | after nine further pushes onto the history, the first pushed name is no longer in it unless it was pushed again |
| `Selection.StepNoPick` | script.js:69-118 | the outcome is NotLoaded iff the dataset is empty, NoMatch iff the dataset is non-empty and the filtered list is empty, and in both cases the history is unchanged |
| `Selection.StepPicksFiltered` | script.js:120-127 | when some dataset entry is kept, an entry is picked; it belongs to the filtered list (hence to the dataset); when some filtered name is outside the history, the picked name was outside the history; the shiny flag is the shiny roll |
| `Selection.StepResetsWhenExhausted` | script.js:120-124 | when the filtered list is non-empty and all its names are in the history, an entry is picked and the history afterwards is exactly [picked name] |
| `Selection.StepHistory` | script.js:145-148 | when some dataset entry is kept, an entry is picked and the history afterwards holds at most 8 names, ends with the picked name, and equals the old history (empty after a reset) plus the name, with the first element dropped only when that exceeds 8 |
| `Selection.RememberKeepsDistinct` | script.js:145-148 | pushing a name the history does not hold keeps the history free of repeats |
| `Selection.StepKeepsDistinct` | script.js:120-148 | a history without repeated names keeps that property through a selection |
| `Selection.Selector.constructor` | script.js:3 | the history starts empty |
| `Selection.Selector.Select` | script.js:68-151 | the outcome and the new history are those of `Step` on the old history; the history stays at most 8 long and free of repeats; without a pick the history is unchanged; a pick is a filtered entry and the last name in the history |
| `Tables.MoveRowCells` | script.js:40-45 | the name cell is the move's name; power shows 'N/A' iff power ≤ 0 and otherwise the number; accuracy shows '—' iff it is 0 and otherwise the number; heal shows 'N/A' iff heal ≤ 0 and otherwise the number with '%' |
| `Tables.MoveRowReadBack` | script.js:40-45 | reading a move row back gives the move with non-positive power and heal read as 0; for non-negative power and heal it gives the move itself |
| `Tables.MoveRowExamples` | script.js:41-43 | (X, 0, 0, 0) shows N/A, —, N/A; (X, 50, 90, 0) shows 50, 90, N/A |
| `Tables.MoveTable` | script.js:36-50 | the move table has the 'Known Moves' title and the four-column header, and one row per move in input order, each the move's display row and reading back as the shown move |
| `Tables.StatsTable` | script.js:52-64 | absent stats give no table; present stats give a table titled 'Base Stats' with the HP/ATK/DEF/SPA/SPD/SPE header and one data row of six plain number cells that reads back as the stats |

## Left out

- `loadPokemonData` (script.js:7-29): it fetches and parses JSON and writes a status text, which is I/O. The loaded dataset is a parameter instead.
- DOM reads and writes (script.js:70, 74-79, 106-117, 129-142, 150): the alert, the result name with its shiny styling, the category and type line, the history status text, and `console.log`. These are presentation. The model returns an `Outcome` value in their place.
- Floating point in `Math.random`/`Math.floor` (script.js:82, 126): a draw is an exact fraction, so rounding of `random * n` is not modelled, and neither is the uniformity of the draw.
- Capitalisation with `toUpperCase` (script.js:139, 178-180): it is locale-dependent Unicode behaviour, used only for display.
- `generateFullListContent` (script.js:155-190): its `localeCompare` sort depends on locale collation, and the cards are DOM building.
- `toggleListView` (script.js:192-204): it only toggles the UI.
- The HTML markup of the tables: cells are structured values (`Text`, `Number`, `Percent`) rather than markup strings.
- Missing fields of an entry are not modelled. Every entry has a name, category, habitat, evolution and types. The source dereferences `evolution` and `habitat` when displaying an entry (script.js:139, 178-180).
