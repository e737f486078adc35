# Pact matching and models, verified

Three parts of the Pact reference implementation in Rust, modelled in Dafny and proved.

**The matching engine.** `JsonMatching` is the JSON comparator with its loops over entries, items,
rules and variants; `XmlMatching` the XML comparator with its shared list of mismatches; and
`QueryMatching` the comparison of query parameters and forms over hash maps walked in any order. Each
method is proved to return what a function says (`JsonVerdicts`, `XmlVerdicts`), and the laws are
proved about that function. A comparison is steered by a `Context`: rules are looked up by path
weight in a category (`Rules`), and `EachValue` and `ArrayContains` swap the category on the way down.
The main results:

- every failure has a mismatch at or below its path, for every context (`JsonPathLaws`, `XmlPathLaws`);
- which mismatches there are, for every context: those of the keys, entries, items, attributes, children,
  texts and rules on the way, none lost and none added (`JsonReports`, `XmlReports`); without rules, the
  differences of two JSON documents, each once and in document order (`JsonDifferences`);
- where rules are looked up, token by token (`PatternLaws`): at the items of a list (`JsonItemLaws`), the
  attributes and the text of an element (`XmlReports`, `XmlAttributeLaws`), the values of a parameter
  (`QueryValueLaws`);
- without rules, exactly equality or subsumption of JSON documents, which is a partial order
  (`JsonPlainLaws`), agreement of XML elements (`XmlLaws`), and equality of forms up to swaps of
  pairs with different names (`FormLaws`, `Traces`);
- with `Type` everywhere, exactly the same shape, which is weaker for JSON (`JsonTypeLaws`), but not
  for XML (`XmlTypeLaws`, `XmlTypeLimits`);
- exactly what `Values`, `EachValue`, `ArrayContains` and lists of rules accept
  (`JsonAcceptance`, `JsonEqualityLaws`, `JsonEachValueLaws`);
- exactly what each rule wants of a scalar, a map, a list or an element, and that bounds only count where
  they are given (`JsonRuleLaws`, `JsonBoundLaws`, `XmlReports`);
- exactly what rules accept for the values of a query parameter (`QueryRules`, `QueryRuleLaws`);
- the order of XML attributes, and of XML children with different names, is not seen at any depth of
  either element (`XmlInterleaving`);
- allowing unexpected keys never rejects more, and the order of hash maps decides nothing, wherever the
  lists that match a path exactly agree about keys (`SettledRules`, `JsonConfigLaws`, `XmlConfigLaws`).

**Parsers and printers.** Percent-encoding (section 2.1 of RFC 3986) and query strings, header maps
(field values joined with commas as in section 5.2 of RFC 9110), and `${key}` expressions. Each pair
is proved inverse exactly on the inputs where it is; and what is written for a character, read from a part
and filled in for an expression is stated on its own (`QueryEncodingLaws`, `QueryReadingLaws`, `FilledTexts`).

**Trees, merges and iterators.** `resolve_path` with the arena it builds, `json_deep_merge` (by
positions, `MergedPositions`) and the update in place of `PluginData`, `MessagePact::merge`, and `CartesianProductIterator`.

Some properties one would expect do not hold of the code. The model keeps its behaviour, and states
exactly when they hold, most with an input for which they fail:

- An expected empty list accepts every list under an `Equality` rule, so `ArrayContains` without
  variants finds an expected `[]` in any list (`JsonEqualityLaws.EqualityRuleExactly`).
- The `Or` logic of a rule list has no effect on maps (`JsonAcceptance.OrIsIgnoredForMaps`,
  `RuledMapAccepted`).
- Where lists that match a path exactly do not agree on whether they are about keys, the order of a new
  hash map decides whether a missing key is accepted, and a context that refuses unexpected keys can
  accept what one that allows them rejects (`JsonConfigLaws.OrderDecides`, `KeysWeakerExactly`).
- With `Type` everywhere, XML that is accepted without rules can be rejected, even when it is compared
  with itself: every child is compared with the first expected one of its name, so siblings of one name
  have to have one shape (`XmlTypeLimits.UnevenSiblingsAreRejected`, `TypeRejectsExactly`); and a child
  of an unexpected name is rejected even where unexpected ones are allowed (`TypeRejectsMoreExactly`).
- `json_deep_merge` is not associative (`DeepMergeLaws.NotAssociative`, `AssociatesExactly`).
- `MessagePact::merge` can lose a message without provider states, and only such a one
  (`MessageMergeLaws.StatelessMessageIsLost`, `StatefulMessageIsKept`, `MergeSortedExactly`).
- `replace_expressions` panics on a `}` before its `${` (`ExpressionValues.PanicsExactly`).
- `CartesianProductIterator::next` indexes past the end right after its first `None` exactly when both
  slices have items and the second has more than one (`CartesianProduct.AskAgain`).
- The strings of `resolve_path` can repeat: with a root token and something to report they differ in every
  document exactly if the expression has at most one `*` (`RepeatedTexts.DistinctExactly`,
  `ResolvedTexts.SlashedTextsRepeat`), and for any expression where no key holds a slash
  (`ResolvedTexts.ResolvedDistinctInDocument`).
- Each is a JSON pointer to the position it was found at, in every document, exactly where the keys on the
  way hold no slash and no tilde that is an escape (`ResolvedTexts.PointsBackExactly`,
  `SlashedKeyPointsElsewhere`).
- `resolve_path` counts on exactly one root token. Parsing always puts one in front of an expression
  that is not empty (path_exp.rs:711-735), but `DocPath::from_tokens` is public and does not
  (path_exp.rs:133-141): without one the result can be a path that does not match
  (`ResolvePathLaws.RootlessStopsShort`, `RootlessPaths.RightExactly`).
- Query parameter names are not encoded, so only names that are read as they are written survive
  (`QueryStringLaws.NamesAreNotEncoded`, `QueryRoundTripExactly`), and values outside U+0010..U+007F
  do not (`QueryEncodingLaws.EncodingRoundTripExactly`).

Run `dafny verify dfyconfig.toml` in this directory.

## Model

| member | source | states |
|---|---|---|
| `JsonMatching.CompareJson` | rust/pact_matching/src/json.rs:377-408 | The comparator returns exactly the verdict of the context, for every pair of documents; each recursive call takes a part of the expected one, so it ends even when the rules are swapped on the way |
| `JsonMatching.CompareMaps` | rust/pact_matching/src/json.rs:410-453 | Maps: the early check for an empty expected map, all rules if any is defined, otherwise keys and shared entries |
| `JsonMatching.CompareMapsWithMatchingRule` | rust/pact_matching/src/matchingrules.rs:282-353 | One rule on two maps, with the values matchers and the rules `EachValue` swaps in |
| `JsonMatching.CompareLists` | rust/pact_matching/src/json.rs:455-488 | Lists: rules if any is defined, otherwise the content and the lengths |
| `JsonMatching.CompareListContent` | rust/pact_matching/src/json.rs:490-512 | The items in order; a missing one is excused where a rule is defined at its path |
| `JsonMatching.CompareListsWithMatchingRules` | rust/pact_matching/src/matchingrules.rs:464-510 | All rules of a list are applied, then combined by its logic |
| `JsonMatching.CompareListsWithMatchingRule` | rust/pact_matching/src/matchingrules.rs:357-461 | One rule on two lists: variants, `EachValue`, or the list as a whole and its content |
| `JsonMatching.FindVariants` | rust/pact_matching/src/matchingrules.rs:375-411 | The mismatches for the variants that are out of range or not found |
| `JsonMatching.FindItem` | rust/pact_matching/src/matchingrules.rs:388-391 | The search stops at the first actual item that matches, and finds one exactly if there is one |
| `JsonMatching.MatchListContents` | rust/pact_matching/src/matchingrules.rs:512-547 | The actual items against the expected list resized with its first item |
| `JsonPathLaws.CompareJustified` | rust/pact_matching/src/matchingrules.rs:282-547 | For every context, whatever it is swapped for: a failure has a mismatch, and every mismatch lies at or below the path the comparison started from |
| `JsonPathLaws.MapRuleJustified` | rust/pact_matching/src/matchingrules.rs:282-353 | The same for one rule on maps |
| `JsonPathLaws.ListRuleJustified` | rust/pact_matching/src/matchingrules.rs:357-461 | The same for one rule on lists, although variants are compared from the root path |
| `JsonDifferences.EachDifferenceOnce` | rust/pact_matching/src/json.rs:378-537 | Without rules at or below a path the mismatches are the differences of the two documents and nothing else: at every position that both reach by shared keys and indices, another kind, another scalar, keys, items or a length that do not fit, and every missing item; each once, with its path, in document order |
| `JsonDifferences.FoundInBoth` | rust/pact_matching/src/lib.rs:1186-1197 | Merging results loses nothing: the mismatches of the first, then those of the second |
| `JsonReports.ReportedExactly` | rust/pact_matching/src/json.rs:378-537 | For every context, whatever it is swapped for: a mismatch is in the result exactly if the keys, a shared entry, an item, a variant or a rule on the way gives it, so those of a rejected part are in the result for the whole and no others are |
| `JsonReports.KeysListed` | rust/pact_matching/src/lib.rs:574-647 | Keys that do not fit are reported at the map, and each key that fails an `EachKey` rule at its own path |
| `JsonReports.AcceptedExactly` | rust/pact_matching/src/json.rs:378-537 | A document is accepted exactly when there is nothing to report |
| `JsonAcceptance.PlainMapAccepted` | rust/pact_matching/src/json.rs:440-449 | Without a rule a map is accepted exactly when its keys and its shared entries are |
| `JsonAcceptance.RuledMapAccepted` | rust/pact_matching/src/json.rs:431-439 | With rules a map is accepted exactly when every rule accepts it: the `Or` logic of the list has no effect on maps |
| `JsonAcceptance.OrIsIgnoredForMaps` | rust/pact_matching/src/json.rs:431-439 | Two empty maps pass the first of two rules combined by `Or`, fail the second, and are turned away |
| `JsonAcceptance.MapRuleAccepted` | rust/pact_matching/src/matchingrules.rs:333-350 | A rule that is no values matcher accepts exactly the maps it accepts as a whole, with their keys and shared entries |
| `JsonAcceptance.ValuesRuleAccepted` | rust/pact_matching/src/matchingrules.rs:292-332 | A `Values` rule accepts exactly when each actual entry is accepted for the expected one of its key or of the smallest key; an empty expected map accepts anything |
| `JsonAcceptance.FirstIsOfSmallestKey` | rust/pact_matching/src/matchingrules.rs:329-331 | The first expected value is that of the smallest key |
| `JsonAcceptance.EachValueMapAccepted` | rust/pact_matching/src/matchingrules.rs:294-332 | `EachValue` does so under its own rules, all of which have to be resolved |
| `JsonAcceptance.PlainListAccepted` | rust/pact_matching/src/json.rs:467-487 | Without a rule exactly the lists of the same length whose items are accepted one by one |
| `JsonAcceptance.ListRulesAccepted` | rust/pact_matching/src/matchingrules.rs:475-509 | A list of rules accepts lists when it is not empty and all its rules do, or any with `Or` |
| `JsonAcceptance.ListRuleAccepted` | rust/pact_matching/src/matchingrules.rs:441-452 | A rule for items accepts exactly when the list as a whole and every item are accepted, items past the end against the first one |
| `JsonAcceptance.EachValueListAccepted` | rust/pact_matching/src/matchingrules.rs:412-440 | A cascaded `EachValue` accepts every list, another one exactly when its rules are resolved and accept the content |
| `JsonAcceptance.ArrayContainsExactly` | rust/pact_matching/src/matchingrules.rs:375-411 | `ArrayContains` with variants accepts exactly when every variant names an expected item and some actual item matches it |
| `JsonAcceptance.ArrayContainsIsMonotone` | rust/pact_matching/src/matchingrules.rs:384-410 | More actual items never turn an accepted list away |
| `JsonAcceptance.ArrayContainsIgnoresOrder` | rust/pact_matching/src/matchingrules.rs:388-391 | Permuting the actual items never changes the verdict |
| `JsonPlainLaws.EqualityExactly` | rust/pact_matching/src/json.rs:378-537 | Without rules and without unexpected keys exactly the equal documents are accepted |
| `JsonPlainLaws.SubsumptionExactly` | rust/pact_matching/src/json.rs:378-537 | Without rules and with unexpected keys allowed exactly the subsumed documents are accepted |
| `JsonPlainLaws.PlainKeysExactly` | rust/pact_matching/src/lib.rs:574-647 | Without rules the expected keys have to be there, and be all if no others are allowed |
| `JsonPlainLaws.SubsumesReflexive` | rust/pact_matching/src/json.rs:378-537 | Every document subsumes itself |
| `JsonPlainLaws.SubsumesTransitive` | rust/pact_matching/src/json.rs:378-537 | Subsumption is transitive |
| `JsonPlainLaws.SubsumesAntisymmetric` | rust/pact_matching/src/json.rs:378-537 | Documents that subsume each other are equal |
| `TypeRules.TypeCategoryIsOnlyType` | rust/pact_models/src/matchingrules/mod.rs:994-1000 | A single `Type` rule at the root is the one rule selected at every path of a body, and decides nothing about keys |
| `JsonTypeLaws.TypeExactly` | rust/pact_matching/src/json.rs:378-537 | With `Type` everywhere exactly the documents of the same shape are accepted |
| `JsonTypeLaws.TypeIsWeaker` | rust/pact_matching/src/json.rs:410-537 | Equal or subsumed documents have the same shape |
| `JsonTypeLaws.TypeAcceptsMore` | rust/pact_matching/src/json.rs:410-537 | So whatever is accepted without rules is accepted with `Type` everywhere |
| `JsonTypeLaws.ShapeExactly` | rust/pact_matching/src/json.rs:378-537 | The same where the one rule selected is a bound inherited from further up: below its path a bound counts no more |
| `JsonBoundLaws.BoundsExactly` | rust/pact_matching/src/matchingrules.rs:40-61 | `MinType`, `MaxType` or `MinMaxType` at the root of a body: exactly the documents of the same shape whose number of entries or items is within the bounds, both included; the number of items is not looked at where an empty list is expected |
| `JsonItemLaws.ItemsExactly` | rust/pact_matching/src/json.rs:455-512 | `Type` on `[*]` of a list: exactly the lists with as many items in which each has the shape of the one expected at its place |
| `JsonItemLaws.EntryItemsExactly` | rust/pact_matching/src/json.rs:410-512 | Where the list is an entry of a map, the other entries are compared as without rules |
| `JsonRuleLaws.ScalarRuleExactly` | rust/pact_matching/src/json.rs:68-279 | What each rule wants of a scalar |
| `JsonRuleLaws.MapRuleExactly` | rust/pact_matching/src/matchingrules.rs:179-233 | No map passes a rule for scalars; what the other rules want of the whole map beside its keys and shared entries |
| `JsonRuleLaws.ListRuleExactly` | rust/pact_matching/src/matchingrules.rs:35-92 | What each rule wants of a whole list beside its items |
| `JsonRuleLaws.KeysExactlyAtRoot` | rust/pact_matching/src/lib.rs:574-647 | Keys count as they are unless the rule is about keys or values, and `EachKey` has to pass for every actual one |
| `JsonEqualityLaws.EqualityEverywhere` | rust/pact_models/src/matchingrules/mod.rs:936-945 | The empty path of the equality category matches every path, and decides nothing about keys |
| `JsonEqualityLaws.EqualityRuleExactly` | rust/pact_matching/src/json.rs:378-537 | Under that category exactly the equal documents are accepted, and any list for an expected empty list that stands alone |
| `JsonEqualityLaws.DefaultVariantsExactly` | rust/pact_matching/src/matchingrules.rs:377-383 | `ArrayContains` without variants accepts exactly when every expected item occurs, an empty list being met by any list |
| `JsonEachValueLaws.SwappedIsOnlyType` | rust/pact_matching/src/matchingrules.rs:428-438 | The rules swapped in by `EachValue` of `Type` leave only `Type` below the path, whatever the rules were |
| `JsonEachValueLaws.SwappedRules` | rust/pact_matching/src/matchingrules.rs:428-438 | In general all the resolved rules have to pass at the children of the path, they cascade from there, and nothing is defined at the path itself |
| `JsonEachValueLaws.EachItemHasType` | rust/pact_matching/src/matchingrules.rs:412-440 | Such a rule accepts a list exactly when each item has the shape of its example |
| `JsonEachValueLaws.EachEntryHasType` | rust/pact_matching/src/matchingrules.rs:294-332 | And a map exactly when each value has the shape of its example, under any key |
| `JsonConfigLaws.LenientIsWeaker` | rust/pact_matching/src/json.rs:378-537 | For every settled rule set: what one context accepts, another one with the same rules that is no stricter about unexpected keys accepts too, whichever lists each of them finds first |
| `JsonConfigLaws.OrderIsIgnored` | rust/pact_matching/src/lib.rs:565-572 | For every settled rule set the order in which lists are found decides nothing |
| `JsonConfigLaws.KeysWeakerExactly` | rust/pact_matching/src/lib.rs:574-647 | In a body, allowing unexpected keys turns no accepted keys away at a path, for all orders, exactly if the lists at exactly the path agree on whether they are about keys, or no keys are accepted there at all |
| `JsonConfigLaws.OrderDecides` | rust/pact_matching/src/lib.rs:565-572 | Two rules under which a missing key is accepted or rejected as the order has it, in either configuration |
| `SettledRules.AgreeExactly` | rust/pact_matching/src/lib.rs:565-572 | The lists at a path agree exactly if any two choices among them decide the same about keys |
| `SettledRules.PairsAreEnough` | rust/pact_matching/src/lib.rs:505-517 | It is enough that any two lists of a body agree, or have patterns that no path matches both of |
| `SettledRules.OneListIsSettled` | rust/pact_models/src/matchingrules/mod.rs:985-992 | A body with at most one rule is settled |
| `XmlConfigLaws.LenientIsWeaker` | rust/pact_matching/src/xml.rs:148-373 | The same for XML, for every rule set of a body, and elsewhere where the lists matching a path are the same |
| `XmlConfigLaws.ElementWeaker` | rust/pact_matching/src/xml.rs:148-373 | Whatever is there already: where an element adds nothing under the stricter context, it adds nothing under the other |
| `Rules.MatchesPathExactly` | rust/pact_models/src/path_exp.rs:191-214 | A pattern matches exactly the paths with a beginning that it matches token by token |
| `PatternLaws.MatchesExactly` | rust/pact_models/src/path_exp.rs:63-82 | For paths and patterns as `join` builds them a pattern matches exactly if each of its tokens covers the one of the path: `*` every token, `[*]` every index, an index itself, a field itself, the root itself |
| `PatternLaws.BelowExactly` | rust/pact_models/src/path_exp.rs:191-214 | And then it matches whatever lies below the path |
| `PatternLaws.QuotedIndex` | rust/pact_models/src/path_exp.rs:63-67 | A field in quotes is compared by its text, so it stands for an index too |
| `PatternLaws.IndexToken` | rust/pact_models/src/path_exp.rs:223-236 | The part that is the text of a machine word becomes that index |
| `PatternLaws.ScoreExactly` | rust/pact_models/src/path_exp.rs:191-207 | The score of a matching pattern is its length, doubled for every token that is no star |
| `PatternLaws.LongerScoresHigher` | rust/pact_models/src/matchingrules/mod.rs:994-1000 | So a longer pattern with as many exact tokens beats a shorter one |
| `Rules.BestOfExactly` | rust/pact_models/src/matchingrules/mod.rs:994-1000 | The selected rule matches, no matching one scores higher, and no later one as high; none is selected only if none matches |
| `Rules.MoreExactScoresHigher` | rust/pact_models/src/path_exp.rs:63-82 | Of two matching patterns of one length, the one that is exact wherever the other is and once more scores higher |
| `Rules.SelectedWhereDefined` | rust/pact_models/src/matchingrules/mod.rs:1055-1079 | In bodies and metadata a rule is selected exactly where one is defined |
| `Rules.OneRule` | rust/pact_models/src/matchingrules/mod.rs:1063-1079 | With a single rule: where it is defined, what is selected and when it counts as cascaded |
| `Contexts.MatchKeys` | rust/pact_matching/src/lib.rs:574-647 | Returns exactly the key mismatches of the context, whichever of the lists at the path is found first |
| `KeyLaws.KeysExactly` | rust/pact_matching/src/lib.rs:574-647 | Keys are accepted exactly when they are as expected, unless the list found first at the path is about keys or values, and pass every `EachKey` rule selected there |
| `RuleMatching.CombinedExactly` | rust/pact_matching/src/matchers.rs:776-802 | Results are accepted exactly when there are some and all are, or any with `Or`; a failure has a mismatch at the path |
| `RuleMatching.MatchValuesExactly` | rust/pact_matching/src/matchers.rs:773-803 | The same for a list of rules on two values |
| `Paths.ParseShownNat` | rust/pact_models/src/path_exp.rs:223-236 | An index is read back from the text it is joined as |
| `XmlMatching.CompareElement` | rust/pact_matching/src/xml.rs:148-179 | Pushes exactly the mismatches of the context, after those already there; each recursive call takes a part of the expected element |
| `XmlMatching.CompareAttributes` | rust/pact_matching/src/xml.rs:181-234 | Attributes: an unexpected first one, their number, then each expected one |
| `XmlMatching.CompareChildren` | rust/pact_matching/src/xml.rs:247-337 | Groups by name, the met groups removed from the expected map, what is left pushed as missing |
| `XmlMatching.CompareGroup` | rust/pact_matching/src/xml.rs:281-323 | One group: all against the first under a type rule, otherwise in pairs as far as they go |
| `XmlMatching.CompareText` | rust/pact_matching/src/xml.rs:339-373 | The concatenated trimmed texts |
| `XmlMatching.MatchXml` | rust/pact_matching/src/xml.rs:53-80 | Two root elements match exactly when nothing was pushed |
| `XmlPathLaws.ElementUnder` | rust/pact_matching/src/xml.rs:148-373 | For every context, whatever is pushed for an element lies at or below its path |
| `XmlPathLaws.XmlJustified` | rust/pact_matching/src/xml.rs:53-80 | So a failed comparison has a mismatch, and all of them lie there |
| `XmlReports.AttributesAccepted` | rust/pact_matching/src/xml.rs:181-234 | For every context the attributes add nothing exactly if their number fits and each expected one is there and passes the list selected at the path followed by the field `@` and its name, or is equal where nothing is defined there |
| `XmlReports.TextAccepted` | rust/pact_matching/src/xml.rs:339-373 | And the text exactly if it passes the list selected at the path followed by the field `#text`, or is equal |
| `XmlReports.ElementTold` | rust/pact_matching/src/xml.rs:148-373 | For every context a mismatch is pushed exactly if the name, an attribute, a group of children at the path followed by their name, or the text gives it, and nothing pushed before is lost |
| `XmlReports.AcceptedExactly` | rust/pact_matching/src/xml.rs:53-80 | Elements are accepted exactly when there is nothing to report |
| `XmlReports.ElementRuleExactly` | rust/pact_matching/src/xml.rs:91-146 | What each rule wants of an element |
| `XmlAttributeLaws.AttributeRuleExactly` | rust/pact_matching/src/xml.rs:216-233 | With `Type` for one attribute its value decides nothing, and all the others have to be equal |
| `XmlAttributeLaws.ElementRuleExactly` | rust/pact_matching/src/xml.rs:148-373 | And the rest of the element is compared as without rules |
| `XmlLaws.NodesInOrder` | rust/pact_matching/src/xml.rs:339-353 | Texts and elements are taken from the nodes in order |
| `XmlLaws.OneNode` | rust/pact_matching/src/xml.rs:339-353 | A text node gives its trimmed text, an element itself, and any other node nothing |
| `XmlLaws.LastValueCounts` | rust/pact_matching/src/xml.rs:188-191 | Of attributes of one name the last one counts |
| `XmlLaws.NamesApart` | rust/pact_matching/src/xml.rs:83-89 | The text of a name is its name space before a colon and the local name, and no two names without colons in the local part share it |
| `XmlLaws.TextIsTrimmed` | rust/pact_matching/src/xml.rs:346-353 | Trimmed texts put together need no more trimming, so trimming only the actual text is enough |
| `XmlLaws.AttributesExactly` | rust/pact_matching/src/xml.rs:181-234 | Without rules nothing is pushed exactly when the attributes are equal, or included where more are allowed |
| `XmlLaws.ChildrenExactly` | rust/pact_matching/src/xml.rs:247-337 | Without rules nothing is pushed exactly when for every name the groups agree in pairs and in length, or the expected one is a prefix in length where more are allowed |
| `XmlLaws.XmlExactly` | rust/pact_matching/src/xml.rs:148-373 | Without rules no mismatch is pushed exactly when the elements agree, and none is ever taken away |
| `XmlLaws.XmlAcceptedExactly` | rust/pact_matching/src/xml.rs:53-80 | So a comparison without rules is accepted exactly for elements that agree |
| `XmlLaws.AgreesWithItself` | rust/pact_matching/src/xml.rs:148-373 | Every element agrees with itself |
| `XmlInterleaving.OrderIsIgnored` | rust/pact_matching/src/xml.rs:181-337 | For every context, neither the order of attributes nor the interleaving of children with different names changes the mismatches or their order: at any depth, of the expected and of the actual element |
| `XmlInterleaving.ReinterleavedBelow` | rust/pact_matching/src/xml.rs:265-324 | The relation behind it carries over from the children of an element to the element, whatever other nodes are between them |
| `XmlInterleaving.SameGroupsReinterleaved` | rust/pact_matching/src/xml.rs:265-324 | It holds of elements whose own children have the same groups by name |
| `XmlInterleaving.ReinterleavedTwice` | rust/pact_matching/src/xml.rs:265-324 | It is transitive, so reorderings at several places can be combined |
| `XmlInterleaving.InterleavingIsIgnored` | rust/pact_matching/src/xml.rs:265-324 | In particular interleaving the children of either element otherwise changes nothing |
| `XmlInterleaving.SwappedChildren` | rust/pact_matching/src/xml.rs:265-324 | Nor do swaps of neighbouring children with different names, on either side |
| `XmlTypeLaws.XmlTypeExactly` | rust/pact_matching/src/xml.rs:148-373 | With `Type` everywhere no mismatch is pushed exactly when the elements have the same shape: names, attribute names, the same child names in any configuration, each actual child like the first expected one of its name |
| `XmlTypeLimits.TypeRejectsExactly` | rust/pact_matching/src/xml.rs:286-291 | What is accepted without rules and without unexpected keys is accepted with `Type` everywhere exactly if the expected element has its own shape: at every level the siblings of one name have the shape of the first |
| `XmlTypeLimits.TypeRejectsMoreExactly` | rust/pact_matching/src/xml.rs:286-323 | Where unexpected keys are allowed, exactly if at every level all actual child names are expected and each actual child fits the first expected one of its name |
| `XmlTypeLimits.FitsExactly` | rust/pact_matching/src/xml.rs:286-323 | For elements that agree, having the same shape is that condition on the children alone |
| `XmlTypeLimits.UnevenSiblingsAreRejected` | rust/pact_matching/src/xml.rs:286-291 | An element with two children of one name and different shape is accepted against itself without rules, and rejected with `Type`, in both configurations |
| `XmlTypeLaws.TypeRejectsUnexpectedChild` | rust/pact_matching/src/xml.rs:316-323 | Where unexpected keys are allowed, the rule rejects a child of an unexpected name that is accepted without it |
| `XmlTypeLaws.UnexpectedChildExample` | rust/pact_matching/src/xml.rs:316-323 | Any child of an expected element without children is one |
| `QueryMatching.MatchQueryMaps` | rust/pact_matching/src/query.rs:16-51 | For every order of the hash maps: one entry for each name of either side, with its mismatches |
| `QueryMatching.MatchQueryValues` | rust/pact_matching/src/query.rs:53-89 | The values of one parameter, by the list comparator where a rule is defined |
| `QueryMatching.CompareParameterValues` | rust/pact_matching/src/query.rs:125-160 | The expected values, padded with empty ones, against the actual ones in order; a missing one is excused where a rule is defined |
| `QueryRules.CompareValueLists` | rust/pact_matching/src/matchingrules.rs:464-510 | The list comparator on strings: the results of all rules, combined by the logic of the list |
| `QueryRules.CompareValueList` | rust/pact_matching/src/matchingrules.rs:357-461 | One rule on two lists of values |
| `QueryRules.FindVariants` | rust/pact_matching/src/matchingrules.rs:375-411 | Each variant is looked for among the actual values, from the root path |
| `QueryRules.MatchContents` | rust/pact_matching/src/matchingrules.rs:512-547 | The actual values against the expected ones resized with the first, each as if it were the first of its parameter |
| `QueryRuleLaws.RuledExactly` | rust/pact_matching/src/matchingrules.rs:464-510 | The values of a parameter with rules are accepted exactly when there are rules and all of them, or any with `Or`, accept them, read as conditions on the values |
| `QueryRuleLaws.RuleExactly` | rust/pact_matching/src/matchingrules.rs:357-461 | What one rule accepts: anything for no expected values, otherwise every variant found, or all references resolved and the content accepted, or the list as a whole and its content |
| `QueryRuleLaws.OnlyRuleExactly` | rust/pact_matching/src/query.rs:53-64 | What a single rule at the root of a query wants of all the values of a parameter together and of each of them; nothing where no values are expected |
| `QueryRuleLaws.BoundsExactly` | rust/pact_matching/src/query.rs:53-64 | Where it is `MinType`, `MaxType` or `MinMaxType`, exactly a number of values within the bounds |
| `QueryValueLaws.PlainValuesExactly` | rust/pact_matching/src/query.rs:65-160 | For every context: without a rule for the parameter there have to be as many values as expected, each passing the list selected at its own index, or equal where none is defined |
| `QueryValueLaws.RuledValues` | rust/pact_matching/src/query.rs:53-64 | With one, the list selected at the root followed by the name decides |
| `QueryValueLaws.MissingIsEmpty` | rust/pact_matching/src/query.rs:15-51 | A value that is missing is compared as an empty one |
| `QueryValueLaws.ParametersExactly` | rust/pact_matching/src/query.rs:15-51 | Parameters are accepted exactly when the names are the same and the values of each are accepted |
| `QueryMatching.MatchForms` | rust/pact_matching/src/form_urlencoded.rs:54-88 | The mismatches of a form are, name by name, those of its parameters |
| `Grouping.GroupBy` | rust/pact_matching/src/lib.rs:1663-1672 | Maps each key to its items in order |
| `FormLaws.ValuesExactly` | rust/pact_matching/src/query.rs:53-89 | Without rules the values of a parameter are accepted exactly when they are equal in order and number |
| `FormLaws.FormsExactly` | rust/pact_matching/src/form_urlencoded.rs:54-88 | Without rules two forms are accepted exactly when every name has the same values in the same order |
| `FormLaws.FormsAreTraces` | rust/pact_matching/src/form_urlencoded.rs:54-88 | That is, exactly when swaps of neighbours with different names turn one into the other |
| `Traces.SameValuesExactly` | rust/pact_matching/src/lib.rs:1663-1672 | Lists group to the same values exactly when they are equal up to such swaps |
| `QueryEncoding.DecodeQuery` | rust/pact_models/src/query_strings.rs:12-64 | The loop decodes to the text whose UTF-8 the characters and escapes spell |
| `QueryEncodingLaws.EncodingRoundTripExactly` | rust/pact_models/src/query_strings.rs:12-87 | Decoding undoes encoding exactly for the strings over U+0010..U+007F |
| `QueryEncodingLaws.EncodeQueryAlphabet` | rust/pact_models/src/query_strings.rs:67-87 | An encoded string consists of letters, digits, `-`, `+` and `%` with two hexadecimal digits |
| `QueryEncodingLaws.EncodedCharExactly` | rust/pact_models/src/query_strings.rs:67-87 | A space becomes a plus sign, letters, digits and the hyphen stay, and any other character is its number in escapes of two digits in lower case; there is no encoding exactly if its digits do not come in pairs |
| `QueryEncodingLaws.EncodedOneByOne` | rust/pact_models/src/query_strings.rs:67-87 | And strings are encoded character by character |
| `QueryEncodingLaws.CodeBytesShort` | rust/pact_models/src/query_strings.rs:75-84 | A character comes back as its own byte below U+0080 and as too few bytes above; below U+0010 it cannot be encoded |
| `Utf8.FromUtf8Exactly` | rust/pact_models/src/query_strings.rs:57-63 | Decoding accepts exactly the UTF-8 encodings of strings |
| `QueryStrings.ParseQueryString` | rust/pact_models/src/query_strings.rs:92-119 | Splitting and folding give each decoded name its values in order |
| `QueryReadingLaws.ReadsBoth` | rust/pact_models/src/query_strings.rs:92-119 | What is read from two texts with an ampersand between them is what is read from both, name by name |
| `QueryReadingLaws.ReadsPart` | rust/pact_models/src/query_strings.rs:94-112 | The first equals sign ends the name, a part without one is a name without a value, and an empty part is nothing |
| `QueryReadingLaws.WrittenInOrder` | rust/pact_models/src/query_strings.rs:122-137 | All parameters with a name are written, sorted by name, the values of a name in their own order |
| `QueryStringLaws.QueryRoundTripExactly` | rust/pact_models/src/query_strings.rs:92-135 | For every map: parsing undoes building exactly when there is a parameter, every name is not empty, means itself (free of `&` and `=`, and read as it is written) and has values, and every value is missing or over U+0010..U+007F |
| `QueryStringLaws.BackMeansItself` | rust/pact_models/src/query_strings.rs:92-135 | The names of a map that comes back mean themselves, although decoding one name can give another |
| `QueryNames.DecodedToItselfExactly` | rust/pact_models/src/query_strings.rs:12-64 | A name is read as it is written exactly when decoding fails on it, or it is ASCII and the scan meets neither a plus sign nor a valid escape in it |
| `QueryNames.DecodedIsLighter` | rust/pact_models/src/query_strings.rs:12-64 | Decoding makes no name heavier by length and code points, and changes it only to a lighter one |
| `QueryNames.PlainMeansItself` | rust/pact_models/src/query_strings.rs:12-64 | ASCII names without `&`, `=`, `%` and `+` mean themselves |
| `QueryStringLaws.ParameterTextParses` | rust/pact_models/src/query_strings.rs:94-112 | A written parameter is read back alone, a missing value staying different from an empty one |
| `QueryStringLaws.NamesAreNotEncoded` | rust/pact_models/src/query_strings.rs:127-131 | A name that is a plus sign is written as it is and read as a space |
| `Headers.ParseJoinExactly` | rust/pact_models/src/headers.rs:30-36 | Parsing a joined header gives the values back exactly when they are trimmed and free of commas, or a single trimmed one for the headers that are never split |
| `Headers.HeadersRoundTripExactly` | rust/pact_models/src/json_utils.rs:112-140 | Reading back the JSON of a header map gives the map exactly when every header survives like that |
| `Headers.ArraysAreKept` | rust/pact_models/src/json_utils.rs:117-123 | Strings in an array are read as they are, neither split nor trimmed |
| `Headers.WrittenHeader` | rust/pact_models/src/json_utils.rs:133-140 | Every header is written, as its values with a comma and a space between them |
| `Text.TrimKeeps` | rust/pact_models/src/headers.rs:30-36 | Trimming takes nothing but white space off the ends |
| `ExpressionValues.ReplaceExpressions` | rust/pact_models/src/expression_parser.rs:377-407 | The scan, which always shortens its buffer, computes the value of the template the string stands for, or says which key or brace is missing |
| `ExpressionValues.ParseExpression` | rust/pact_models/src/expression_parser.rs:369-375 | A string without expressions is passed through |
| `Expressions.ParseRender` | rust/pact_models/src/expression_parser.rs:377-407 | Finding the parts undoes rendering exactly for well-formed templates |
| `Expressions.RenderParse` | rust/pact_models/src/expression_parser.rs:377-407 | Every string is rendered by the template found in it |
| `Expressions.FirstPart` | rust/pact_models/src/expression_parser.rs:385-396 | Where the first `${` and the first `}` are, exactly |
| `ExpressionValues.EvaluatesExactly` | rust/pact_models/src/expression_parser.rs:377-407 | A rendered template evaluates exactly when every key that is not empty has a value, to the lone piece or else the joined text; otherwise the error names such a key |
| `FilledTexts.FilledExactly` | rust/pact_models/src/expression_parser.rs:377-407 | Where every key has a value, the result is the string of the literals with the texts of the values in place of their expressions, in order; a lone part is its own value |
| `FilledTexts.StringsInPlace` | rust/pact_models/src/expression_parser.rs:377-407 | So with strings for all the keys it is the string with each expression replaced by its own |
| `ExpressionValues.PanicsExactly` | rust/pact_models/src/expression_parser.rs:385-388 | The scan panics exactly when a `}` comes before the next `${` and all keys before have values |
| `ExpressionValues.BraceBeforeExpressionPanics` | rust/pact_models/src/expression_parser.rs:385-388 | A string for which it does |
| `PathGraph.QueryObjectGraph` | rust/pact_models/src/json_utils.rs:253-314 | Adds to the arena exactly the forest of fragments that the expression finds, in preorder |
| `ArenaOrder.LaidDescendants` | rust/pact_models/src/json_utils.rs:240-240 | The descendants of a node are the positions of the forest laid below it, in order |
| `ResolvePath.ResolvePath` | rust/pact_models/src/json_utils.rs:236-251 | The fold over the arena returns what is read off the forest |
| `ResolvePathLaws.PositionsFit` | rust/pact_models/src/json_utils.rs:236-314 | The positions an expression finds are exactly those that match it token by token |
| `ResolvePathLaws.PositionsOrdered` | rust/pact_models/src/json_utils.rs:236-314 | They come in document order |
| `ResolvePathLaws.PrecedesIrreflexive` | rust/pact_models/src/json_utils.rs:236-314 | No position precedes itself, so none occurs twice |
| `ResolvePathLaws.TooDeep` | rust/pact_models/src/json_utils.rs:277-285 | A skipped index is never made up for: nothing below it reaches the depth of the expression |
| `ResolvePathLaws.ResolvesExactly` | rust/pact_models/src/json_utils.rs:236-314 | With one root token the result is the texts of exactly the fitting positions with a last key that is not empty, each position once and in document order |
| `RepeatedTexts.DistinctExactly` | rust/pact_models/src/json_utils.rs:236-251 | With a root token the strings differ in every document exactly if the expression has at most one `*`, or nothing is ever reported as there are more root tokens or the last token can only find the empty name |
| `RepeatedTexts.OneStarTexts` | rust/pact_models/src/json_utils.rs:236-251 | Positions that match an expression with at most one `*` are told apart by their texts, whatever slashes the keys hold |
| `RepeatedTexts.TwoStarsRepeat` | rust/pact_models/src/json_utils.rs:236-251 | For any other expression that can report something, a document in which a string occurs twice |
| `ResolvedTexts.ResolvedDistinctInDocument` | rust/pact_models/src/json_utils.rs:236-251 | So they differ for every document without slashes in its keys |
| `ResolvedTexts.SlashedTextsRepeat` | rust/pact_models/src/json_utils.rs:236-251 | A document with slashes in its keys in which `$.*.*` finds one string twice |
| `ResolvedTexts.TokensExactly` | rust/pact_models/src/generators/mod.rs:1255-1258 | The text of a position, read as a JSON pointer, has its labels as reference tokens exactly when none has a slash, or a tilde that is an escape |
| `ResolvedTexts.PointsBackExactly` | rust/pact_models/src/generators/mod.rs:1255-1258 | Read as a JSON pointer, the text of a position leads back to it in every document exactly when its labels are so, and its indices are machine words |
| `ResolvedTexts.ResolvedPointsBack` | rust/pact_models/src/generators/mod.rs:1255-1258 | So without slashes and tildes in the keys of the document every returned string points to the value at its position |
| `ResolvedTexts.SlashedKeyPointsElsewhere` | rust/pact_models/src/generators/mod.rs:1255-1258 | The text of a key with a slash can point into another value |
| `ResolvePathLaws.MoreRootsResolveNothing` | rust/pact_models/src/json_utils.rs:244-246 | With more root tokens nothing is found |
| `RootlessPaths.RootlessResolves` | rust/pact_models/src/json_utils.rs:236-314 | Without a root token the result is the texts of exactly the positions where a walk ends one label short, as its last token finds nothing there or an index on the way was skipped |
| `RootlessPaths.RightExactly` | rust/pact_models/src/json_utils.rs:236-314 | For which expressions the result is that of the fitting positions in every document: with one root token always; with more where the last token can only find the empty name; without one where so can, moreover, the last but one |
| `ResolvePathLaws.RootlessStopsShort` | rust/pact_models/src/json_utils.rs:244-246 | An input without a root token for which the result is a path that does not match |
| `DeepMerge.JsonDeepMerge` | rust/pact_models/src/json_utils.rs:197-220 | The fold over both objects computes the merge |
| `MergedPositions.MergedExactly` | rust/pact_models/src/json_utils.rs:197-220 | A document is the merge exactly if at every position that both reach by shared keys it holds: for two arrays, the items of the first and then those of the other; for two objects, the keys of both and the entries only one has; otherwise the value of the other |
| `MergedPositions.MergedHolds` | rust/pact_models/src/json_utils.rs:197-220 | The merge holds that at every such position |
| `DeepMergeLaws.MergedEntries` | rust/pact_models/src/json_utils.rs:204-217 | The keys are those of both; what only one has is kept, what both have is merged |
| `DeepMergeLaws.EmptyObjectIsUnit` | rust/pact_models/src/json_utils.rs:204-217 | The empty object is a unit on both sides |
| `DeepMergeLaws.AssociatesExactly` | rust/pact_models/src/json_utils.rs:197-220 | Exactly when the grouping of three merges does not matter |
| `DeepMergeLaws.ShapeCompatibleAssociates` | rust/pact_models/src/json_utils.rs:197-220 | It does not for documents of compatible shape |
| `DeepMergeLaws.NotAssociative` | rust/pact_models/src/json_utils.rs:197-220 | Three documents for which it does |
| `Plugins.PluginData.Merge` | rust/pact_models/src/plugins.rs:25-34 | For every order of the incoming map the configuration ends as the deep merge of both maps |
| `MessageMergeLaws.MergeSelf` | rust/pact_models/src/message_pact.rs:306-346 | Merging a pact with itself changes nothing |
| `MessagePactLaws.MergeRefusesExactly` | rust/pact_models/src/message_pact.rs:306-346 | Refused are exactly pacts of other participants and pacts with an interaction that is no message, with the types of all of those; a merged pact keeps participants, metadata and version |
| `MessageMergeLaws.MergeLength` | rust/pact_models/src/message_pact.rs:308-338 | As many messages as on both sides, less the joined pairs |
| `MessageMergeLaws.OtherIsKept` | rust/pact_models/src/message_pact.rs:318-325 | Every interaction of the other pact is in the result |
| `MessageMergeLaws.ResultIsFrom` | rust/pact_models/src/message_pact.rs:318-325 | Every message of the result is from one of the two |
| `MessageMergeLaws.MergeKeepsAllDescriptions` | rust/pact_models/src/message_pact.rs:308-338 | No description of either pact is lost, sorted or not |
| `MessageMergeLaws.StatefulMessageIsKept` | rust/pact_models/src/message_pact.rs:308-338 | A message with states keeps its key in the result, sorted or not, so only messages without states can be lost |
| `MessageMergeLaws.MergeSortedExactly` | rust/pact_models/src/message_pact.rs:308-338 | Sorted pacts keep the keys of both exactly when no message without states meets only interactions with states; then the result is sorted |
| `MessageMergeLaws.StatefulIsCovered` | rust/pact_models/src/message_pact.rs:309-317 | Messages that all have states never do |
| `MessageMergeLaws.OtherWins` | rust/pact_models/src/message_pact.rs:322-323 | Then the other pact wins on the keys both have |
| `MessageMergeLaws.StatelessMessageIsLost` | rust/pact_models/src/message_pact.rs:309-317 | A message without states is replaced by one with states |
| `MergeKeyLaws.UncoveredIsLost` | rust/pact_models/src/message_pact.rs:309-317 | Every message that is not covered like that is lost |
| `MessagePactLaws.KeysOfJoin` | rust/pact_models/src/message_pact.rs:309-324 | The keys of the join are the merge of the keys |
| `CartesianProduct.CartesianProductIterator.Next` | rust/pact_models/src/iterator_utils.rs:18-34 | The k-th call yields the k-th pair of the product and the next one ends with the column on the second item; an ended iterator stays ended, moving on by one column or ending again past the last |
| `CartesianProduct.AskAgain` | rust/pact_models/src/iterator_utils.rs:18-34 | The call after the first `None` is out of bounds exactly when both slices have items and the second has more than one; otherwise all further calls end |
| `CartesianProduct.CartesianProductIterator.Collect` | rust/pact_models/src/iterator_utils.rs:15-35 | Draining a new iterator yields exactly the product |
| `CartesianProduct.ProductByDivision` | rust/pact_models/src/iterator_utils.rs:18-34 | The k-th pair is found at row k / n and column k % n |

## Left out

- Regular expressions, `Include`, dates, numbers and status codes in strings, content types and semantic versions: two arbitrary predicates of the context (`Foreign`) stand for what the libraries say, so every law holds for whatever they say.
- Mismatch descriptions and the expected and actual texts in them: a mismatch is its path and a tag.
- Parsing bodies (JSON, XML, forms), multipart bodies and plugin matchers: comparisons start from parsed values; forms start from decoded pairs.
- Numbers are exact: integers and decimals are unbounded, and a decimal is never an integer.
- The text a JSON value prints as is a parameter where it is needed (headers, expressions).
- The weight of a path is unbounded; in the source the product overflows for patterns of more than 62 tokens.
- Filtering a category fills a new hash map, so any of its lists can be found first, and another one at the next lookup; `Context.first` says which for every lookup. Lookups are told apart by their path and by the entries, rules, variants and tried items passed through. Those for equal items that are tried for one variant share an answer, and so, in XML, do those for one path, which matters only where several lists match in categories other than bodies and metadata. A category itself is walked in one order throughout a comparison.
- QueryMatching.MatchForms: the order in which the names of the result map are flattened is arbitrary, so the result is stated name by name.
- Headers.HeadersRoundTripExactly: lower-casing is modelled as far as it can produce one of the names of headers that are never split.
- JsonEachValueLaws.SwappedIsOnlyType: the indices in the path have to be machine words, as they are in the source.
- JsonItemLaws.ItemsExactly: the expected list has no more items than machine words count, as in the source.
- XmlAttributeLaws.ElementRuleExactly: no child is named like the path of an attribute, with `@` in front; no XML name is.
- ResolvedTexts.ResolvedPointsBack: the indices in the position have to be machine words, as they are in the source.
- Header value, status, method and path matching, generators and the second matching engine: they would add more of the same.
- Reading and writing pact files, the mock server, the verifier and the foreign function interface: input, output and foreign calls.
