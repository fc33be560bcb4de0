# A verified model of the OPC UA to MQTT dashboard gateway

The gateway browses the machines folder of an OPC UA server, matches every machine against
the type model that the server publishes, subscribes to the variables it finds and publishes
each machine as JSON under an MQTT topic, together with retained lists of all machines. This
project models that logic and proves what its parts promise each other.

| module | file of the gateway | subject |
|---|---|---|
| OpcUa | ModelDefinition.hpp | node ids and their two equalities, names, modelling rules |
| MachineObserver | MachineObserver.cpp | one round as a step of a state machine, runs of rounds |
| DashboardMachineObserver | MachineObserver.cpp, DashboardMachineObserver.cpp | the same round, with the program's fields and loops |
| TypeCompilation | OpcUaTypeReader.cpp, ModelDefinition.cpp | merging inherited declarations on a store of shared lists |
| OpcUaTypeReader | OpcUaTypeReader.cpp, ModelDefinition.cpp | the same merge, with the program's loops, and the linking that follows |
| Instance, DashboardClient | DashboardClient.cpp | matching a type against the server: outcome, tree, browsed nodes |
| Ideal, Conformance | DashboardClient.cpp | what the match means, and when a machine is rejected |
| ValueFeed, Subscription | DashboardClient.cpp, Subscription.cpp | which nodes get a value, monitored items over all clients |
| PublishedValues | DashboardClient.cpp, ModelToJson.cpp | which value every node shows, and where it is published |
| ModelToJson, JsonPaths | ModelToJson.cpp | rendering, lookup by path |
| RepeatedChildren, GuardedTypes, UnguardedTypes | DashboardClient.cpp, ModelToJson.cpp | repeated declarations: when they matter and when not |
| MachineTrees | OpcUaTypeReader.cpp, DashboardClient.cpp, ModelToJson.cpp | compiled types, match and JSON together |
| ValueArrays | UaDataValueToJsonValue.cpp | arrays of any rank |
| DependencyGraph | TypeDictionary.hpp | depth-first topological sort |
| IdEncode, Topics | IdEncode.cpp, Topics.cpp | the encoding of ids and the topics |
| Namespaces | OpcUaClient.cpp and both converters | the namespace caches across reconnects |
| SuperTypes | OpcUaClient.cpp, MachineObserver.cpp | the supertype memo and the classification memo |
| PublishMachinesList | PublishMachinesList.cpp, DashboardMachineObserver.cpp | the retained machine lists |

Code that works step by step is a class or a method with loops. Its contract equates the new
state with a function of the old one, and the lemmas are about that function. Answers of the
server (Browse, TranslateBrowsePath, identification, Subscribe) are finite maps in which a
missing key is an exception, so that every pattern of failures is covered; a round, a
reconnect or a subscription takes them as parameters. Iteration in the order of a `std::map`
is modelled as iteration in any order.

Some results correct what one might expect of the code:

- After a round whose listing changed, machines that were known before are dropped although
  they are online, and come back one round later (`MachineObserver.Partition`).
- A replaced optional declaration hands nothing down to the declaration that replaces it,
  although the comment at DashboardClient/OpcUaTypeReader.cpp:195-199 reads as if child lists
  were merged in both directions (`TypeCompilation.ReplacementInheritsNothing`).
- The cells of a multi-dimensional array are the row-major ones exactly if there is at most one
  row or a row has at most one cell (`ValueArrays.ConversionIsRowMajorIff`).
- Compiled types list children more than once, which was to be harmless. It is, whatever the
  server answers, exactly on type graphs that are guarded: a child listed again is not an
  optional one with a mandatory placeholder, nor an optional placeholder whose elements can
  fail, unless a mandatory placeholder before it reads the same elements
  (`UnguardedTypes.GuardedIff`). On any other graph a child that was dropped by an exception
  comes back as a bare leaf; `UnguardedTypes.RepetitionShows` is one graph on which this is
  seen in the JSON.
- What a subtype redeclares below an inherited child also shows below that child in the entry
  of the base type, because entries share their nodes (`TypeCompilation.RedeclarationLeaks`);
  nothing else does (`TypeCompilation.CompiledEntry`).
- Different node ids share their string form, and so their topics, exactly if one identifier
  swallows the end of the other one's namespace; that can happen exactly if one namespace is
  the other followed by a semicolon and the beginning of an identifier
  (`Topics.NamespacesCollideIff`).
- A monitored item stays on the server unrecorded exactly if it was created with another
  queue size than 1 (`Subscription.ServerSubscription.Subscribe`).
- If supertypes cannot be browsed when a machine type is met for the first time, it is
  remembered under the first configured type that the walk still gets to, or as not
  configured. That is wrong exactly if a failing type lies on the way to its first configured
  ancestor (`SuperTypes.FoundDespiteFailuresIff`, `SuperTypes.Classifier.Classify`).

## Model

| member | source | states |
|---|---|---|
| OpcUa.SameVersusKey | ModelOpcUa/src/ModelOpcUa/ModelDefinition.hpp:48-66 | `operator==` and the map order differ exactly on the two spellings of namespace 0, and not at all on canonical ids |
| MachineObserver.ListingIsFirstWins | MachineObserver/MachineObserver.cpp:47-57 | removing duplicates keeps, for each node id, the first browsed entry |
| MachineObserver.KnownAfter | MachineObserver/MachineObserver.cpp:32-78 | known machines after a round: those known before and online if the listing is unchanged, none otherwise, plus the accepted ones |
| MachineObserver.StepKeepsInv | MachineObserver/MachineObserver.cpp:32-78 | every round keeps: known machines were listed and have an identification, clients and online machines are the known ones that are not ignored, the blacklist is disjoint from them with counters in 1..10 |
| MachineObserver.Partition | MachineObserver/MachineObserver.cpp:36-72 | every online machine is known, blacklisted, or was known before a changed listing; the three classes are disjoint |
| MachineObserver.OfflineMachine | MachineObserver/MachineObserver.cpp:36-72 | a machine that is not listed or not online leaves known machines, clients and online machines; its blacklist entry stays as it is |
| MachineObserver.KnownMachine | MachineObserver/MachineObserver.cpp:36-103 | a known machine that is online stays just as it was if the server lists the same machines as in the last round, and leaves otherwise |
| MachineObserver.WaitingMachine | MachineObserver/MachineObserver.cpp:105-116 | a blacklisted online machine with more than one round to wait is not tried; it waits one round less, for the same reason |
| MachineObserver.RefusedMachine | MachineObserver/DashboardMachineObserver.cpp:132-194 | a machine that is tried and whose type was never read, or whose instance cannot be read, is in none of the three maps and waits 10 rounds under that reason |
| MachineObserver.AddedMachine | MachineObserver/DashboardMachineObserver.cpp:132-194 | any other machine that is tried is known under its first browsed entry and not blacklisted; unless ignored it has a client and is online under the name of its type |
| MachineObserver.RoundRemembers | MachineObserver/MachineObserver.cpp:47-64 | the round leaves the listed machines as the last listing and the identifications of the online ones |
| MachineObserver.RunKeepsInv | MachineObserver/MachineObserver.cpp:32-78 | the invariant in every reachable state |
| MachineObserver.TwoEqualListingsConverge | MachineObserver/MachineObserver.cpp:80-103 | after any history, two successful rounds with the same listing leave online = known + blacklisted, and the key sets in agreement |
| MachineObserver.BlacklistedStep | MachineObserver/MachineObserver.cpp:105-116 | one round on a blacklisted machine: only an online round counts down, and only at 1 is it tried |
| MachineObserver.RetriedExactly | MachineObserver/MachineObserver.cpp:105-116 | a blacklisted machine is not tried until its counter of online rounds has run out, and is tried in the next one, whatever rounds come between |
| MachineObserver.RefusedThenSkipped | MachineObserver/MachineObserver.hpp:30 | a machine that is tried and cannot be built, its type never read or its reading refused, is skipped in exactly its next 9 online rounds and tried in the 10th |
| MachineObserver.AlwaysRefused | MachineObserver/MachineObserver.cpp:276-287 | a machine that can be built in none of its online rounds is tried in the 1st, 11th, 21st ... of them and is never known |
| MachineObserver.StableServerIsFullyKnown | MachineObserver/MachineObserver.cpp:32-78 | after 10 or more rounds that list the same machines, find the same ones online and refuse none of them, every online machine is known and none blacklisted, whatever happened before; identifications and browsed entries may change from round to round |
| DashboardMachineObserver.Deduplicate | MachineObserver/MachineObserver.cpp:47-57 | the deduplication loop yields the first-wins listing |
| DashboardMachineObserver.Observer.RemoveMachine | MachineObserver/DashboardMachineObserver.cpp:196-224 | one machine leaves the known machines, the clients and the online machines together |
| DashboardMachineObserver.Observer.RemoveOfflineMachines | MachineObserver/MachineObserver.cpp:268-274 | exactly the given machines leave, and clients and online machines keep equal keys |
| DashboardMachineObserver.Observer.MachineListsNotEqual | MachineObserver/MachineObserver.cpp:80-103 | a changed listing removes all machines of the previous one and is remembered |
| DashboardMachineObserver.Observer.FindNewAndOfflineMachines | MachineObserver/MachineObserver.cpp:216-250 | the sets of machines to remove, of new machines, and the identifications of the online ones |
| DashboardMachineObserver.Observer.IgnoreInvalidMachinesTemporarily | MachineObserver/MachineObserver.cpp:105-116 | the counter goes down; the machine is ignored unless the counter reached 0, and then leaves the blacklist |
| DashboardMachineObserver.Observer.AddMachine | MachineObserver/DashboardMachineObserver.cpp:132-194 | client and online machine are added together or not at all; refused exactly if the machine is not ignored and its type was never read or building the client throws, with that reason; the branch for an existing client is never reached |
| DashboardMachineObserver.Observer.AddNewMachine | MachineObserver/MachineObserver.cpp:276-287 | an accepted machine becomes known, a refused one is blacklisted for 10 rounds with the reason |
| DashboardMachineObserver.PartialTurn | MachineObserver/MachineObserver.cpp:66-72 | the turn of one new machine, from any partly processed state, gives the closed form with that machine processed |
| DashboardMachineObserver.Observer.ProcessNewMachines | MachineObserver/MachineObserver.cpp:66-72 | the loop in any order yields the closed form, trying each due machine exactly once |
| DashboardMachineObserver.Observer.TakeDown | MachineObserver/MachineObserver.cpp:36-64 | the machines removed in a round, although the removal set is taken before the reset |
| DashboardMachineObserver.Observer.UpdateMachines | MachineObserver/MachineObserver.cpp:32-78 | one call is one step of the state machine and keeps its invariant |
| TypeCompilation.EntryKeepsWinners | DashboardClient/OpcUaTypeReader.cpp:183-221 | an entry holds one declaration per name: the first from the root that is not optional, or the most derived one |
| TypeCompilation.EntryInOrder | DashboardClient/OpcUaTypeReader.cpp:183-221 | the entries come in the order of their declarations: what is kept stays in place, what replaces an optional one goes to the end |
| TypeCompilation.MergeMembers | DashboardClient/OpcUaTypeReader.cpp:191-221 | what merging one declaration keeps and drops, by name and modelling rule |
| TypeCompilation.AddMissingCovers | DashboardClient/OpcUaTypeReader.cpp:200-208 | after the inner loop every name of the second list is in the first |
| TypeCompilation.AddMissingAppends | DashboardClient/OpcUaTypeReader.cpp:200-208 | exactly the entries of a new name are appended, the first of each name, in their order |
| TypeCompilation.DeclarationsDistinct | DashboardClient/OpcUaTypeReader.cpp:155-180 | the declarations of a bloodline are distinct nodes, none of them a type |
| TypeCompilation.DeclarationsAre | DashboardClient/OpcUaTypeReader.cpp:155-180 | they are exactly the nodes directly below the type or one of its ancestors that are no types |
| TypeCompilation.DeclarationsRootFirst | DashboardClient/OpcUaTypeReader.cpp:167-180 | they come from the root down, and below one type in its order of children |
| TypeCompilation.ConvertedGrows | ModelOpcUa/src/ModelOpcUa/ModelDefinition.cpp:219-229 | converting a child again lengthens lists of non-types only and appends its children once more |
| TypeCompilation.MergeChildStep | DashboardClient/OpcUaTypeReader.cpp:177-222 | the merged declaration and the entry it is merged into then cover its children; lists of other types do not change |
| TypeCompilation.ReplacementInheritsNothing | DashboardClient/OpcUaTypeReader.cpp:209-215 | a declaration that replaces an optional one gets none of its merged children |
| TypeCompilation.CompileEntry | DashboardClient/OpcUaTypeReader.cpp:155-223 | after the whole bloodline the entry is the merge of all declarations, and each kept one covers the children of all later ones of its name |
| TypeCompilation.CompileExpands | ModelOpcUa/src/ModelOpcUa/ModelDefinition.cpp:219-229 | every node below a merged declaration, at any depth, then has all its own children in its list |
| TypeCompilation.CompileKeepsOthers | DashboardClient/OpcUaTypeReader.cpp:147-228 | compiling a further type leaves the entries of all compiled types as described, although nodes are shared |
| TypeCompilation.CompiledEntry | DashboardClient/OpcUaTypeReader.cpp:147-228 | each entry: unique names, exactly the declared names of the bloodline, the winning declarations in declaration order; below a kept child every name that it or a later declaration of the bloodline has, and nothing but children of it and of its redeclarations; every declaration is expanded to the bottom |
| TypeCompilation.RedeclarationLeaks | DashboardClient/OpcUaTypeReader.cpp:193-208 | the redeclarations that count include those of other subtypes: their children show in the entry of the base type |
| TypeCompilation.MergeChildBounded | DashboardClient/OpcUaTypeReader.cpp:177-222 | one merge puts into a list only children of a redeclaration of its node |
| TypeCompilation.CompileBounded | DashboardClient/OpcUaTypeReader.cpp:155-223 | so does the merge of a whole bloodline |
| TypeCompilation.DeclarationsInOrder | DashboardClient/OpcUaTypeReader.cpp:155-180 | declarations come from the root down, so a later one of the same name redeclares an earlier one |
| OpcUaTypeReader.TypeReader.ToStructureNode | ModelOpcUa/src/ModelOpcUa/ModelDefinition.cpp:219-229 | the recursion appends, below the node, every child list once more |
| OpcUaTypeReader.TypeReader.AddMissingNames | DashboardClient/OpcUaTypeReader.cpp:200-208 | the loop over the children of a child adds exactly the missing names |
| OpcUaTypeReader.TypeReader.MergeOne | DashboardClient/OpcUaTypeReader.cpp:181-221 | one iteration over an ancestor's children is one merge on the store of lists |
| OpcUaTypeReader.TypeReader.ReadBloodline | DashboardClient/OpcUaTypeReader.cpp:155-161 | the list of the type and all its ancestors |
| OpcUaTypeReader.TypeReader.MergeBloodline | DashboardClient/OpcUaTypeReader.cpp:167-223 | the nested loops merge the declarations of the bloodline, root first |
| OpcUaTypeReader.TypeReader.SetupType | DashboardClient/OpcUaTypeReader.cpp:148-227 | one type is entered and all compiled entries stay as described |
| OpcUaTypeReader.TypeReader.SetupTypeMap | DashboardClient/OpcUaTypeReader.cpp:147-228 | exactly the types of the namespace are entered, in any order |
| OpcUaTypeReader.TypeReader.ReadTypes | DashboardClient/OpcUaTypeReader.cpp:52-68 | exactly the types of the expected namespaces that the server has are compiled and then linked; what is reported as not found is the rest, counted with repetitions |
| OpcUaTypeReader.TypeReader.UpdateTypeMap | DashboardClient/OpcUaTypeReader.cpp:99-128 | children of entries share the list of their own type's entry, in whatever order entries are visited; a child of FolderType or FunctionalGroupType does not, instead the nodes in its list do; a pointer changes only if its node is a child of an entry and no folder, or is in the list of a folder child of an entry |
| OpcUaTypeReader.FolderKeepsItsList | DashboardClient/OpcUaTypeReader.cpp:105-117 | a folder that lies in no folder keeps its list, and so its declared children, even if its type was compiled |
| OpcUaTypeReader.EntryStaysDone | DashboardClient/OpcUaTypeReader.cpp:99-128 | a child that was linked stays linked while others are |
| OpcUaTypeReader.GraphIsValid | DashboardClient/OpcUaTypeReader.cpp:99-128 | the linked lists form a type graph the match can run on |
| OpcUaTypeReader.LinkedChildExpandsToItsType | DashboardClient/OpcUaTypeReader.cpp:118-122 | after linking, a child has the children of its type's entry; a type with a child of its own type is cyclic |
| Instance.Transform | DashboardClient/DashboardClient.cpp:123-202 | the match terminates on every finite server and type graph, cyclic or not; browsed nodes only grow |
| DashboardClient.Client.TransformToNodeIds | DashboardClient/DashboardClient.cpp:123-202 | the recursion computes the three-outcome match and the browsed nodes; each node id is expanded at most once in the client's life |
| DashboardClient.Client.ReadChild | DashboardClient/DashboardClient.cpp:139-166 | the switch on the modelling rule |
| DashboardClient.Client.OptionalAndMandatoryTransformToNodeId | DashboardClient/DashboardClient.cpp:218-246 | exception rules of simple children: InvalidChild passes, another exception is absorbed only at Optional |
| DashboardClient.Client.OptionalAndMandatoryPlaceholderTransformToNodeId | DashboardClient/DashboardClient.cpp:252-294 | exception rules of placeholders: any exception is absorbed at OptionalPlaceholder and weakened to a plain one otherwise |
| DashboardClient.Client.PreparePlaceholderNodesTypeId | DashboardClient/DashboardClient.cpp:296-321 | elements in list order, those of unknown type left out, interfaces standing for base objects |
| Conformance.PlaceholderElements | DashboardClient/DashboardClient.cpp:296-321 | in a placeholder that was read, a listed element stands under its own type, or, if that is `i=58`, under its interface, with what that type declares, whenever that type is known |
| Conformance.BaseObjectThrows | DashboardClient/DashboardClient.cpp:301-303 | a listed element of type `i=58` without interface makes reading the placeholder throw |
| Ideal.FreshClientReadsIdeal | DashboardClient/DashboardClient.cpp:123-321 | on address spaces without repeated nodes the match equals a recursion without visited set |
| Ideal.TransformIsIdeal | DashboardClient/DashboardClient.cpp:123-202 | the same for any client whose browsed nodes lie outside the subtree, and what it browses lies inside |
| Conformance.AcceptedConforms | DashboardClient/DashboardClient.cpp:130-167 | every accepted tree follows the declarations in type order, at every node: a node is bare exactly if it was browsed before its turn; a declared child is missing exactly if its rule is none, its path resolved to null, it is optional and looking it up or reading it throws, or it is an optional placeholder and its elements cannot be read |
| Conformance.MandatoryChildPresent | DashboardClient/DashboardClient.cpp:218-246 | so at every node that is not bare each mandatory child whose path resolved is there |
| Conformance.IdealFull | DashboardClient/DashboardClient.cpp:138-167 | without repeated nodes no node is bare, and an optional child or placeholder is missing exactly if its path does not resolve, it cannot be browsed, or a fatal walk starts below it |
| Conformance.RejectedIff | DashboardClient/DashboardClient.cpp:218-294 | for every type, mandatory placeholders included: accepted exactly if no walk over simple children and elements of mandatory placeholders leads to a lookup, a browse or an element type that fails; rejected as invalid exactly if such a walk begins with a simple child before which no mandatory placeholder fails |
| Conformance.FirstFailureDecides | DashboardClient/DashboardClient.cpp:237-278 | below an optional child the first declaration that throws decides, for any list of declarations and any browsed nodes: a mandatory placeholder drops the child, any other one rejects the machine |
| ModelToJson.Render | DashboardClient/Converter/ModelToJson.cpp:19-101 | the recursion with its loops computes the JSON function, exceptions included |
| JsonPaths.ValueIsPublished | DashboardClient/Converter/ModelToJson.cpp:38-67 | the non-null value of a variable whose siblings have names of their own is found under its path; also that of a property without children |
| JsonPaths.TypeTagIsPublished | DashboardClient/Converter/ModelToJson.cpp:83-87 | the path of a placeholder, an element's name and `$TypeDefinition` lead to the text of that element's type definition |
| JsonPaths.MembersIff | DashboardClient/Converter/ModelToJson.cpp:48-60 | the object of a node has exactly the keys under which a child is rendered: the first child of its qualified name, if its JSON is not null |
| JsonPaths.LastMemberIsSeen | DashboardClient/Converter/ModelToJson.cpp:48-60 | of several such children with one plain name the last is seen |
| JsonPaths.ElementKeysIff | DashboardClient/Converter/ModelToJson.cpp:83-87 | the object of a placeholder has exactly the names of its elements as keys |
| JsonPaths.NullIff | DashboardClient/Converter/ModelToJson.cpp:28-94 | a node renders to null exactly if it is not published, is a placeholder without elements, or has no rendered child and no value of its own |
| JsonPaths.EveryAtomHasAnOrigin | DashboardClient/Converter/ModelToJson.cpp:38-94 | the JSON holds nothing but values of variables of the tree under published nodes and type tags, each at its place |
| JsonPaths.RenderingThrowsIff | DashboardClient/Converter/ModelToJson.cpp:83-87 | rendering throws exactly if some rendered placeholder element is a bare value |
| RepeatedChildren.TransformDedup | DashboardClient/DashboardClient.cpp:138-167 | in a steady run the match with repeated declarations browses the same nodes and yields the same tree with echoes |
| RepeatedChildren.SimilarPublish | DashboardClient/Converter/ModelToJson.cpp:48-58 | echoes do not change the JSON |
| RepeatedChildren.EchoAddsNothing | DashboardClient/DashboardClient.cpp:414-419 | echoes add no subscription |
| GuardedTypes.GuardedIsSteady | DashboardClient/DashboardClient.cpp:123-321 | on a guarded type graph every run is steady, whatever the server answers |
| GuardedTypes.RepeatedDeclarationsDoNotMatter | DashboardClient/DashboardClient.cpp:123-202 | on a guarded type graph what is published for a machine is the same with and without the repetitions, on every server |
| UnguardedTypes.UnguardedOptional | DashboardClient/DashboardClient.cpp:237-244 | an optional child with a mandatory placeholder that is listed twice has a server on which the trees differ |
| UnguardedTypes.UnguardedPlaceholder | DashboardClient/DashboardClient.cpp:252-321 | so has an optional placeholder listed twice whose elements can fail, unless a mandatory placeholder reads the same elements before it |
| UnguardedTypes.GuardedIff | DashboardClient/DashboardClient.cpp:123-321 | repeated declarations never change what a fresh client reads, on any server, if and only if the type graph is guarded |
| UnguardedTypes.RepetitionShows | DashboardClient/DashboardClient.cpp:237-244 | one graph and server on which the value of a variable is published with the repetition and nothing without it |
| RepeatedChildren.DroppedChildComesBack | DashboardClient/DashboardClient.cpp:237-244 | a dropped optional child that is declared again comes back as a leaf |
| MachineTrees.GuardedReadsIdeal | DashboardClient/DashboardClient.cpp:123-321 | on guarded graphs with repetitions a fresh client reads, echoes aside, the ideal instance of the types without them |
| MachineTrees.MachineRejectedIff | DashboardClient/DashboardClient.cpp:218-294 | the program rejects exactly the machines from which a fatal walk starts |
| MachineTrees.MachineIsFull | DashboardClient/DashboardClient.cpp:138-167 | the tree of an accepted machine is, echoes aside, one in which every node has all its type declares |
| MachineTrees.MachinePublishesIdeal | DashboardClient/Converter/ModelToJson.cpp:19-101 | what is published is the JSON of the ideal instance |
| MachineTrees.CompiledMachine | DashboardClient/OpcUaTypeReader.cpp:99-128 | all of this for the graphs that the type reader builds |
| MachineTrees.EntryInGraph | DashboardClient/OpcUaTypeReader.cpp:147-228 | the graph has for every compiled type the winning declarations of its bloodline, in order, each with the class, rule, name, reference and type of the node that declares it |
| ValueArrays.ConvertArray | OpcUaClient/Converter/UaDataValueToJsonValue.cpp:655-683 | the loops compute the nested list, with the 32-bit stride product |
| ValueArrays.ConvertValue | OpcUaClient/Converter/UaDataValueToJsonValue.cpp:786-792 | an array without dimensions is the list of all its cells in order |
| ValueArrays.StrideWrapsAround | OpcUaClient/Converter/UaDataValueToJsonValue.cpp:674-677 | for dimensions of any size the stride is the product of the dimensions between, modulo 2^32 |
| ValueArrays.ConvertIsShaped | OpcUaClient/Converter/UaDataValueToJsonValue.cpp:658-683 | for any rank the nested lists have the shape of the dimensions |
| ValueArrays.ItemIsCellRead | OpcUaClient/Converter/UaDataValueToJsonValue.cpp:674-682 | the item at a multi-index is row-major over all but the last dimension plus the last index |
| ValueArrays.CellsReadAreInBounds | OpcUaClient/Converter/UaDataValueToJsonValue.cpp:655-683 | the largest cell read is P+L-2, and it lies in the array |
| ValueArrays.RowMajorIff | OpcUaClient/Converter/UaDataValueToJsonValue.cpp:674-677 | the cells are the row-major ones exactly if P <= 1 or L <= 1 |
| ValueArrays.ConversionIsRowMajorIff | OpcUaClient/Converter/UaDataValueToJsonValue.cpp:655-683 | the same of the converted value at every multi-index |
| DependencyGraph.Graph.AddEdge | DashboardClient/TypeDictionary/TypeDictionary.hpp:70-74 | the edge is appended and both vertices become unvisited |
| DependencyGraph.Graph.TopologicalSortUtil | DashboardClient/TypeDictionary/TypeDictionary.hpp:76-83 | terminates on every graph, pushes the vertex and keeps the stack ordered while the graph has no cycle |
| DependencyGraph.Graph.TopologicalSort | DashboardClient/TypeDictionary/TypeDictionary.hpp:85-91 | the stack holds every vertex once; sources lie above targets if and only if the graph is acyclic |
| DependencyGraph.BackEdgeIsACycle | DashboardClient/TypeDictionary/TypeDictionary.hpp:79-81 | an edge back into the current trail is a cycle |
| DependencyGraph.OrderedIsAcyclic | DashboardClient/TypeDictionary/TypeDictionary.hpp:85-91 | an ordered stack of all vertices exists only for acyclic graphs |
| IdEncode.EncodeId | Util/IdEncode.cpp:24-42 | the loop writes the code of each byte |
| IdEncode.CharShape | Util/IdEncode.cpp:30-39 | the code of every byte: itself, two hex digits below 0x80, or eight starting with F |
| IdEncode.DecodeEncode | Util/IdEncode.cpp:24-42 | the encoding has a left inverse on all byte strings |
| IdEncode.EncodeInjective | Util/IdEncode.cpp:24-42 | distinct ids have distinct codes |
| IdEncode.PrefixFree | Util/IdEncode.cpp:30-39 | no byte's code begins another one's |
| IdEncode.EncodedIsTopicSafe | Util/IdEncode.cpp:17-22 | the output never contains a topic separator or wildcard (section 4.7.1 of MQTT 3.1.1) |
| Topics.TextEqualIff | ModelOpcUa/src/ModelOpcUa/ModelDefinition.hpp:29-42 | two node ids share their string form exactly if they are equal up to the empty identifier, or one identifier swallows the end of the other namespace |
| Topics.NamespacesCollideIff | ModelOpcUa/src/ModelOpcUa/ModelDefinition.hpp:29-42 | two namespaces have such node ids exactly if one is the other with a semicolon and the beginning of an identifier behind it |
| Topics.TextInjective | ModelOpcUa/src/ModelOpcUa/ModelDefinition.hpp:29-42 | otherwise the string form tells node ids apart up to the empty identifier |
| Topics.SemicolonCollides | ModelOpcUa/src/ModelOpcUa/ModelDefinition.hpp:29-42 | one pair of node ids that share their string form |
| Topics.MachineTopicsInjective | MachineObserver/Topics.cpp:17-22 | a machine topic determines type name and id, whatever the type name; it is an online topic exactly if the type is called "online" |
| Topics.NodeTopicsDistinct | MachineObserver/Topics.cpp:17-40 | machines share a machine topic or an online topic exactly if their node ids share the string form, which distinct ids of namespaces that do not collide never do |
| Topics.ListTopicsDistinct | MachineObserver/Topics.cpp:24-40 | list topics determine the type name and meet no error list and no online topic |
| Topics.TopicLevels | MachineObserver/Topics.cpp:17-40 | every topic has five levels: the prefix in two, the client, then type name and encoded id, or `online`, `list` or `bad_list` and what it is about |
| Namespaces.NamespaceCache.FillNamespaceCache | OpcUaClient/OpcUaClient.cpp:366-381 | the loop fills both caches: first position of each namespace, cut to 16 bits |
| Namespaces.NamespaceCache.VerifyCompatibleNamespaceCache | OpcUaClient/OpcUaClient.cpp:349-364 | true exactly if every old entry is still there unchanged |
| Namespaces.NamespaceCache.UpdateNamespaceCache | OpcUaClient/OpcUaClient.cpp:337-347 | the caches are refilled, and a reset is issued exactly if they are not compatible |
| Namespaces.NamespaceCache.Reconnect | OpcUaClient/OpcUaClient.cpp:337-347 | a run of updates issues the resets that the specification counts |
| Namespaces.ToIndexIsFirst | OpcUaClient/OpcUaClient.cpp:366-381 | a namespace is cached under its first position modulo 65536 |
| Namespaces.ToUriIsLast | OpcUaClient/OpcUaClient.cpp:366-381 | an index stands for the last of the namespaces whose first position is cut to it |
| Namespaces.ToUriIff | OpcUaClient/OpcUaClient.cpp:366-381 | and is cached exactly if there is one |
| Namespaces.InverseIff | OpcUaClient/OpcUaClient.cpp:366-381 | the caches are mutually inverse exactly if no two namespaces are cut to the same index |
| Namespaces.ShortTablesAreInverse | OpcUaClient/OpcUaClient.cpp:366-381 | so they are for every table of at most 65536 entries, duplicates included |
| Namespaces.RoundTripIff | OpcUaClient/Converter/ModelToUaConverter.cpp:22-34 | model to UA to model keeps a node id under `operator==` exactly if it is in namespace 0 or its namespace is cached at a nonzero index |
| Namespaces.IndexRoundTripIff | OpcUaClient/Converter/UaToModelConverter.cpp:22-37 | UA to model to UA keeps an index exactly if it is 0 or cached with a nonempty namespace |
| Namespaces.CanonicalIff | OpcUaClient/Converter/UaToModelConverter.cpp:22-37 | node ids from the server have one spelling of namespace 0 exactly if the table has it at index 0 or not at all |
| Namespaces.NoResetKeepsIndices | OpcUaClient/OpcUaClient.cpp:349-364 | over a run without reset every index keeps its namespace |
| Namespaces.NoResetKeepsNodeIds | OpcUaClient/OpcUaClient.cpp:337-381 | over a run without reset namespaces keep their index, and node ids survive translation across reconnects |
| SuperTypes.TypeClient.Walk | OpcUaClient/OpcUaClient.cpp:294-315 | terminates; answers ancestor reachability for every content of the memo and every depth limit, or throws exactly if a type on the way is neither remembered nor browsable |
| SuperTypes.TypeClient.IsSameOrSubtype | OpcUaClient/OpcUaClient.cpp:317-327 | an exception reads as no |
| SuperTypes.AnswerWithoutFailures | OpcUaClient/OpcUaClient.cpp:294-327 | when nothing fails the memo cannot be observed |
| SuperTypes.ReachesStep | OpcUaClient/OpcUaClient.cpp:298-304 | reachability unfolds as the program walks |
| SuperTypes.ReachesTransitive | OpcUaClient/OpcUaClient.cpp:294-315 | subtyping is transitive |
| SuperTypes.SubtypeIsOrder | OpcUaClient/OpcUaClient.cpp:294-315 | on an acyclic forest it is antisymmetric |
| SuperTypes.SuperTypesAreComparable | OpcUaClient/OpcUaClient.cpp:294-315 | the supertypes of a type form a line |
| SuperTypes.FirstConfiguredIsReached | MachineObserver/MachineObserver.cpp:173-179 | the classification finds a configured ancestor if there is one |
| SuperTypes.FirstInIsFirst | MachineObserver/MachineObserver.cpp:173-179 | and takes the first in configuration order |
| SuperTypes.ClassifiedIsConfiguredIff | MachineObserver/MachineObserver.cpp:166-185 | the result is configured exactly if some configured type is reached, and classifying again changes nothing |
| SuperTypes.FoundDespiteFailuresIff | MachineObserver/MachineObserver.cpp:173-179 | the lookup finds the right type despite failing supertypes exactly if the walk to the first configured ancestor meets none of them |
| SuperTypes.FailureHidesConfiguredType | MachineObserver/MachineObserver.cpp:173-179 | one hierarchy in which a failing type above the machine type hides its configured ancestor |
| SuperTypes.Classifier.FindBase | MachineObserver/MachineObserver.cpp:173-179 | the loop finds the first configured type that the walk gets to, for every memo and every set of failing types |
| SuperTypes.Classifier.Classify | MachineObserver/MachineObserver.cpp:166-185 | for every history: a type met for the first time is remembered under the first configured type its walk gets to, and treated right exactly if that is its first configured ancestor; a remembered type is treated right exactly if the memo holds what it holds without failures |
| ValueFeed.FeedSubscribesAll | DashboardClient/DashboardClient.cpp:323-428 | the traversal subscribes exactly the mandatory and optional variables of the tree that the server accepts, in addition to what was subscribed |
| PublishedValues.FedValue | DashboardClient/DashboardClient.cpp:323-428 | a node of the tree shows what the server delivers exactly if it is the first optional or mandatory variable of its node id in the order of the traversal, under published nodes, nobody was subscribed to it before and the server accepts; any other node keeps its value |
| PublishedValues.DeliveredIsPublished | DashboardClient/Converter/ModelToJson.cpp:38-67 | in the JSON the path of such a variable leads to what the server delivers |
| PublishedValues.MachinePublishesDelivered | DashboardClient/DashboardClient.cpp:399-423 | the same from the answers of the server to the JSON of the machine |
| PublishedValues.MachinePublishesTypes | DashboardClient/Converter/ModelToJson.cpp:83-87 | and so for the type tags of all elements |
| Subscription.ServerSubscription.Subscribe | OpcUaClient/Subscription.cpp:134-200 | handle numbering, the callback table, and when an item is created, recorded or left behind |
| Subscription.ServerSubscription.Unsubscribe | OpcUaClient/Subscription.cpp:93-132 | the items and callbacks with the given handles go |
| Subscription.Client.SubscribeValue | DashboardClient/DashboardClient.cpp:399-423 | at most one item per node id |
| Subscription.Client.SubscribeValues | DashboardClient/DashboardClient.cpp:323-335 | the traversal subscribes the first variable of each node id; new items are recorded or leaked and nothing else changes |
| Subscription.Client.HandleSubscribeChildNodes | DashboardClient/DashboardClient.cpp:337-363 | the loop over the children by modelling rule |
| Subscription.Client.HandleSubscribePlaceholderChildNode | DashboardClient/DashboardClient.cpp:380-397 | the loop over the elements |
| Subscription.Client.AddDataSet | DashboardClient/DashboardClient.cpp:29-50 | a rejected machine creates no item |
| Subscription.Client.Unsubscribe | DashboardClient/DashboardClient.cpp:87-106 | deletes exactly the recorded items, although the two ids change places twice; callbacks go by item id |
| Subscription.Gateway.AddMachine | MachineObserver/DashboardMachineObserver.cpp:145-184 | the client has an item for exactly the accepted variables of its tree; over all clients, the server's items stay the disjoint union of the recorded and the leaked ones |
| Subscription.Gateway.RemoveMachine | MachineObserver/DashboardMachineObserver.cpp:203-208 | removing a machine deletes exactly its recorded items and touches no other client |
| Subscription.GrowsOn | DashboardClient/DashboardClient.cpp:323-397 | growth of items composes over the traversal |
| Subscription.TransformIsCanonical | DashboardClient/DashboardClient.cpp:123-202 | trees read from a server with canonical ids have canonical ids |
| PublishMachinesList.MachinesList.AddMachine | MachineObserver/PublishMachinesList.cpp:20-23 | the data is appended to the list of its type name |
| PublishMachinesList.MachinesList.Publish | MachineObserver/PublishMachinesList.cpp:25-44 | every list, and an empty one for every expected name without machines, is retained; no other topic changes |
| PublishMachinesList.GroupedIsSelect | MachineObserver/PublishMachinesList.cpp:20-23 | the list of a type name is the data added under it, in order |
| PublishMachinesList.ListIsShown | MachineObserver/DashboardMachineObserver.cpp:100-110 | the published list is the data of the online machines of the type that have an identification |
| PublishMachinesList.ShownOnce | MachineObserver/DashboardMachineObserver.cpp:100-110 | each such machine appears exactly once |
| PublishMachinesList.PublishState | MachineObserver/DashboardMachineObserver.cpp:95-125 | one publication: the lists of online machines, then the error list |
| PublishMachinesList.UpdateObjectTypeNames | DashboardClient/OpcUaTypeReader.cpp:71-84 | exactly the names of the configured types that were read |
| PublishMachinesList.RecogniseMachines | MachineObserver/MachineObserver.cpp:196-210 | the loop with its recursion into component folders lists the machines, each followed by those of its components |
| PublishMachinesList.MachinesInIff | MachineObserver/MachineObserver.cpp:136-147 | a machine is listed exactly if it and all above it are of a configured type with an identification |
| PublishMachinesList.MachinesInOrder | MachineObserver/MachineObserver.cpp:196-204 | machines come in browse order, the components of each right after it |
| PublishMachinesList.RunNamesExpected | MachineObserver/DashboardMachineObserver.cpp:160-161 | in every reachable state each online machine shows an expected type name |
| PublishMachinesList.PublicationIsUpToDate | MachineObserver/DashboardMachineObserver.cpp:99-124 | after one publication each expected list has one entry per online machine of the type with an identification, the identification with the parent id, and the error list one per blacklisted machine with an identification, with the reason; whatever was retained before |
| PublishMachinesList.TurnsAreBetween | MachineObserver/MachineObserver.cpp:66-72 | while the new machines of a round are processed, what a publication can see of each machine is its state before or after the round |
| PublishMachinesList.NoListIsStale | MachineObserver/DashboardMachineObserver.cpp:42-86 | for any interleaving of rounds and publications, publications in the middle of a round included: at every point nothing but expected lists and the error list is retained, and every publication brings them up to date with the machines it sees |

## Left out

- Sessions, reconnecting, security, the MQTT library, the certificate troubleshooter, the main loop: I/O.
- Reading types from the server (`browseTypes`): the model starts from its result. The hierarchy is finite and acyclic, without which the recursion, which has no visited check, does not terminate, and every node has one parent.
- That types hang only under types is an assumption about the server's hierarchy of its own, part of `TypeCompilation.WellFormed`; the code does not check it.
- The two node ids that the observer ignores are a parameter.
- Decoders of single structures, dates and GUIDs, generated type tables: field copying. A number that JSON cannot hold, such as NaN, is printed as null there and is a scalar here.
- The branches under `FIX_FOR_OLD_IJT_2` and `REDUNDANT_FOR_IJT`, and the JSON flags other than the defaults that `getJson` uses.
- `DashboardClient::Publish`: a machine's JSON is sent when it changed or 10 seconds have passed; the clock is not modelled.
- Logging, YAML printing, configuration loading, `m_machineNames`, the content of an identification, and how `m_parentOfMachine` is filled (the encoded parent ids are a parameter).
- An exception other than `OpcUaException` or `ClientNotConnected` while browsing, or other than `OpcUaException` while asking whether a machine is online: it leaves a round half done.
- `NumSkipAfterOffline`: no code reads it, refused and offline machines both get `NumSkipAfterInvalid`.
- The machine filter (MachineObserver/MachineObserver.cpp:122-124): it only shortens the browsed list, which is arbitrary here.
- Reading `ifs.front()` of an empty interface list (DashboardClient/DashboardClient.cpp:303) is undefined behaviour; it is an exception in the model.
- The list publisher reads the blacklist without the observer's lock; here a publication sees one state.
- Pointers to structure nodes and child lists are indices into one store of nodes and one of lists, so aliasing is kept but not object identity beyond it.
- DependencyGraph.Out: looking up a vertex without edges inserts an empty list in the program; an absent key reads as the empty list here.
- ValueArrays.ItemIsCellRead: arrays of fewer than 2^32 cells, as every OPC UA array is; a longer one would wrap the 32-bit stride.
- OpcUaTypeReader.TypeReader.ReadTypes: a namespace that is both configured twice and listed twice by the server would be compiled twice, which can reorder the optional children of its entries; each namespace is once in one of the lists here.
- OpcUaTypeReader.TypeReader.UpdateTypeMap: `ofBaseDataVariableType`, which is copied along, is left out; the JSON does not read it.
- ValueArrays.ConvertArray: the counter of the innermost loop is a 32-bit `int` in the program, so a dimension beyond 2^31-1 is outside the model.
- IdEncode.EncodeId: `isalnum` is the one of the "C" locale and `char` is signed with 8 bits, as on the platforms the gateway is built for.
- Subscription.ServerSubscription.CreateItem: ids are integers that never run out; the casts between signed and unsigned 32-bit ids are taken as the identity, which they are on the bits.
- Subscription.Client.Unsubscribe: the server is taken to answer the delete request; if it does not, the program logs a warning and forgets the items.
- Subscription.TransformIsCanonical: needs a server that spells namespace 0 in one way, which `Namespaces.CanonicalIff` gives for its namespace table.
- UnguardedTypes.GuardedIff: the half that finds a server needs different siblings to have different names; the other half, `GuardedTypes.GuardedReadsTheSame`, does not.
- Ideal.FreshClientReadsIdeal: needs different declared children of a node to lead to different nodes; type graphs with repeated children go through `MachineTrees.GuardedReadsIdeal`.
- PublishMachinesList.NoListIsStale: the broker retains nothing when the gateway starts; messages that an earlier run left under other type names are never rewritten.
- SuperTypes.TypeClient.Walk: the server's type hierarchy is fixed and acyclic; on a cyclic one the program does not terminate.
- SuperTypes.Classifier.Classify: the types that cannot be browsed are the same during one lookup; they may differ from lookup to lookup.
- PublishMachinesList.RecogniseMachines: the type of a found node is the one after its classification, which `SuperTypes.Classifier.Classify` models, and after a base object was replaced by its interface.
