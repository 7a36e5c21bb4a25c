# Neo4j result graphs and the natural-language query service, in Dafny

This project models the core of a question-answering app over a Stack Overflow
graph stored in Neo4j. A user's question goes to a query service. The service
asks a language model for a Cypher query and returns it. The app runs the query
and turns the records it gets back into a node list and an edge list for the
streamlit-agraph widget. The model covers three pieces:

- **The styled converter** `convert_neo4j_to_graph` of `graph_utils/graph_utils.py`.
  It classifies each record and each field:
  - a record made only of scalars becomes one "Result" node, `record_<i>`;
  - an entity becomes one node under `str(id)`, styled from its category and
    text properties, and the first entity with a given id wins;
  - a relationship becomes one edge;
  - a scalar inside a mixed record becomes a `<key>_<value>` node.

  When the result has several nodes and no edge, a `center_node` hub is added
  and joined to every other node.
- **The chat front end's converter** `convert_neo4j_to_graph` of
  `streamlit/app.py`. It is simpler: the first entity with a given id becomes a
  plain node, every relationship becomes an edge, and every other value is
  ignored.
- **The query service** of `nl2cypher_mcp/nl2cypher_mcp.py`. It handles:
  - the clean-up of the model's reply: `strip()`, drop one opening "```" or
    "```cypher" fence line, drop one closing "```", then `strip()` again;
  - the mapping of each failure of the model call to a fixed `[ERROR] ...`
    message;
  - the `POST /generate-query` endpoint, which answers `{"query": ..., "parameters": {}}`.

Modules:

- `Basics`: `Option`, and Python's `str()` of integers.
- `Neo4jValues`: the driver's duck-typed values as a tagged union
  `Entity | Rel | Scalar | Other`; records as ordered lists of name/value pairs;
  the first occurrence of an entity id.
- `Agraph`: `Node` and `Edge`, and `Snapshot`, a value picture of the converter
  state. The state is an insertion-ordered dictionary plus an edge list. A
  write to an existing key keeps that key's place, as a Python `dict` does.
  `GraphBuilder` is the mutable class the converters update.
- `GraphUtils` and `GraphUtilsProofs`:
  - `Walk` and `Hub` specify the styled converter as a fold over the records
    followed by the hub pass.
  - `ConvertNeo4jToGraph` is the imperative converter with its nested loops,
    proved to compute exactly `Convert`.
  - The proofs module states what the result contains.
- `StreamlitApp` and `StreamlitAppProofs`: the same arrangement for the front
  end's converter, whose fold is over the flat stream of field values.
- `GraphUtilsScenarios`: two worked examples of the styled converter, computed
  in full.
- `Nl2CypherMcp`: `strip()`, the regular-expression substitutions, the message
  table and the endpoint.

Behaviour of the code worth noting:

- The relationship branches of both converters do not drop self-loops.
- They do not merge repeated `(source, target, type)` edges.
- They do not create nodes for a relationship's endpoints.
- A re-encountered entity is skipped outright. Its properties are not refreshed.
- The hub is added whenever there are several nodes and no edge, whether the
  nodes are scalars or entities.
- A question titled `How do I sort a list in Python efficiently using
  built-ins?` gets the caption `Question: How do I sort a list`: `[:20]`
  keeps 20 characters, and they end with `list`, with no trailing space
  (`GraphUtilsScenarios.AskedScenario`).

More behaviour of the code that the model keeps and the lemmas state:

- A scalar-only record's `record_<i>` node and the hub are written
  unconditionally. They overwrite a mixed-record scalar node whose key happens
  to be the same: a field `record` with value `3`, or a field `center` with
  value `node`. When the hub overwrites such a node, the node keeps its place,
  and there are n nodes and n-1 hub edges (`GraphUtilsProofs.HubOverwrite`).
- An entity key is a rendered integer, so it never contains `_`. It therefore
  never collides with any of those composite keys.
- The default category colour `#4ECDC4` is also the colour of `Question`.
- A reply whose content is `None` makes `.strip()` raise. That falls to the
  catch-all clause, so the message is the "unexpected error" one.
- A successful reply that itself starts with `[ERROR]` cannot be told apart
  from a failure by the caller.
- Python's `$` also matches just before a final newline. The model includes
  that case of the closing-fence substitution, and
  `Nl2CypherMcp.NoFinalNewlineAfterStart` shows it cannot arise after the first
  `strip()`.

## Model

| member | source | states |
|---|---|---|
| Basics.ShowNat | graph_utils/graph_utils.py:50 | `str(n)` of a non-negative int is non-empty and all decimal digits. It has one digit exactly when n < 10. |
| Basics.ShowInt | graph_utils/graph_utils.py:62 | `str(i)` is non-empty and made of digits and `-`. For i >= 0 it is the digits of i. |
| Basics.ShowNatInjective | graph_utils/graph_utils.py:50 | Two numbers with the same decimal rendering are equal, so different record indexes give different `record_<i>` keys. |
| Basics.ShowIntNoUnderscore | graph_utils/graph_utils.py:62 | An entity key `str(value.id)` never contains `_`. |
| Neo4jValues.FirstEntityIndex | graph_utils/graph_utils.py:61-63 | A found position is in range and holds an entity whose `str(id)` is the key. |
| Neo4jValues.FirstEntityIndexSpec | graph_utils/graph_utils.py:63 | The found position is the first such entity. No position is found exactly when no entity has that key. |
| Neo4jValues.RelCount | graph_utils/graph_utils.py:106 | The relationship count is zero exactly when no value is a relationship. |
| Agraph.Snapshot.Put | graph_utils/graph_utils.py:51 | `nodes[k] = n` stores n under k and changes no other key. A new key goes last, an existing key keeps its place. It keeps the dictionary valid and keyed by id. |
| Agraph.NodesOfKeyed | graph_utils/graph_utils.py:119 | The output node ids are the dictionary keys in insertion order. Every stored node is output, and no two output nodes share an id. |
| Agraph.RelEdges | graph_utils/graph_utils.py:91 | There is one edge per relationship value. |
| Agraph.RelEdgesAt | graph_utils/graph_utils.py:82-91 | The relationship at position i, with r relationships before it, is edge r. |
| Agraph.GraphBuilder.Put | graph_utils/graph_utils.py:51 | The builder's new state is `Snapshot.Put` of its old state. |
| Agraph.GraphBuilder.Append | graph_utils/graph_utils.py:91 | The builder's new state has the edge appended to the old edge list. |
| Agraph.GraphBuilder.constructor | graph_utils/graph_utils.py:35-36 | The state starts as `nodes = {}` and `edges = []`. |
| GraphUtils.Prefix | graph_utils/graph_utils.py:68 | `s[:20]` is a prefix of s of length min(20, len s). |
| GraphUtils.Truncate | graph_utils/graph_utils.py:71 | Text of at most 200 characters is unchanged. Longer text becomes its first 200 characters followed by `...`, so the result is never over 203 characters. |
| GraphUtils.StepField | graph_utils/graph_utils.py:59-103 | One field keeps the node dictionary a valid dictionary whose nodes sit under their own ids. |
| GraphUtils.Walk | graph_utils/graph_utils.py:46-103 | After the main loop the dictionary is valid and every node sits under its own id. |
| GraphUtils.Hub | graph_utils/graph_utils.py:105-117 | The hub pass keeps the dictionary valid and keyed by id. |
| GraphUtils.AddField | graph_utils/graph_utils.py:59-103 | The inner-loop body changes the builder exactly as `StepField` does. |
| GraphUtils.AddFields | graph_utils/graph_utils.py:59-103 | The inner loop over a mixed record's fields changes the builder exactly as `StepFields` does. |
| GraphUtils.AddRecord | graph_utils/graph_utils.py:47-103 | One pass of the outer loop, either branch, changes the builder exactly as `StepRecord` does. |
| GraphUtils.AddHub | graph_utils/graph_utils.py:105-117 | The hub post-pass with its key loop changes the builder exactly as `Hub` does. |
| GraphUtils.ConvertNeo4jToGraph | graph_utils/graph_utils.py:33-119 | The imperative converter returns exactly `Convert(records)`, the fold plus the hub pass. |
| GraphUtilsProofs.RecordKeyInjective | graph_utils/graph_utils.py:50 | Different record indexes give different `record_<i>` keys. |
| GraphUtilsProofs.HubIdIsNoRecordKey | graph_utils/graph_utils.py:107 | `center_node` is never a `record_<i>` key. |
| GraphUtilsProofs.StepFieldKeeps | graph_utils/graph_utils.py:63 | No field of a mixed record removes a node, moves a key or rewrites a stored node. |
| GraphUtilsProofs.StepFieldsKeeps | graph_utils/graph_utils.py:59-103 | A whole mixed record removes, moves and rewrites no existing node. |
| GraphUtilsProofs.ShownWalk | graph_utils/graph_utils.py:61-79 | After the main loop, an underscore-free key is present exactly when some entity has that id, and it holds that id's first entity's styled node. |
| GraphUtilsProofs.EntityFirstWins | graph_utils/graph_utils.py:61-79 | The output has a node with id `str(e)` exactly when some entity has id e, and that node is the one styled from the first such entity. |
| GraphUtilsProofs.NodeIdsUnique | graph_utils/graph_utils.py:119 | No two output nodes share an id. |
| GraphUtilsProofs.ResultsShownWalk | graph_utils/graph_utils.py:48-57 | After the main loop every scalar-only record i has its Result node under `record_<i>`. |
| GraphUtilsProofs.ScalarRecordShown | graph_utils/graph_utils.py:48-57 | A scalar-only record at i yields an output node with id `record_<i>`, caption `Result`, size 30, colour `#88C0D0`, and hover text the `", "`-joined `k: v` texts of its fields. |
| GraphUtilsProofs.FieldTextsAt | graph_utils/graph_utils.py:49 | The i-th part of a Result node's text is `f"{k}: {v}"` of the record's i-th field. |
| GraphUtilsProofs.ScalarFieldStep | graph_utils/graph_utils.py:94-103 | A scalar field of a mixed record adds the node `<key>_<value>` (caption `key: value`, size 25, colour `#FFA62B`, hover `str(value)`) when that key is new. Otherwise it changes nothing, and so does a value of no known kind. |
| GraphUtilsProofs.WalkGrows | graph_utils/graph_utils.py:46-103 | Later records never remove a key or change the key order. |
| GraphUtilsProofs.StepFieldsPrefixKept | graph_utils/graph_utils.py:59-103 | The fields after position j keep every node present after the first j fields. |
| GraphUtilsProofs.ScalarFieldInRecord | graph_utils/graph_utils.py:94-103 | After a mixed record, each of its scalar fields has a `<key>_<value>` key in the dictionary. |
| GraphUtilsProofs.ScalarFieldShown | graph_utils/graph_utils.py:94-103 | Every scalar field of every mixed record has a `<key>_<value>` node in the output. |
| GraphUtilsProofs.InsertionOrder | graph_utils/graph_utils.py:46-119 | The nodes made by the first i records come first in the output, in the order they were made. |
| GraphUtilsProofs.EntityNodeStyle | graph_utils/graph_utils.py:62-79 | An entity node has id `str(id)`, size 25, the colour of its category and the hover text. The category is the first label, or `Node` when there is none. The caption is `category + ": "` followed by at most 20 characters, a prefix of the first non-empty of `title`, `display_name` and `name`, or of the category when all three are empty. |
| GraphUtilsProofs.HoverShape | graph_utils/graph_utils.py:70-71 | The hover text is `body_markdown`, or else `title`, or else empty; at most 200 characters are kept, plus `...` when it was longer. |
| GraphUtilsProofs.ColorTable | graph_utils/graph_utils.py:38-44 | User `#FF6B6B`, Question `#4ECDC4`, Answer `#45B7D1`, Tag `#FFA62B`, Comment `#C04CFD`, and `#4ECDC4` for any other category. |
| GraphUtilsProofs.RelEdgesNoRels | graph_utils/graph_utils.py:82 | Values that are not relationships add no edge. |
| GraphUtilsProofs.StepFieldEdges | graph_utils/graph_utils.py:82-91 | A field appends one `#888` edge when it is a relationship, and none otherwise. |
| GraphUtilsProofs.EdgesStepFields | graph_utils/graph_utils.py:59-91 | The edges after a mixed record are one per relationship value so far, in order. |
| GraphUtilsProofs.WalkEdges | graph_utils/graph_utils.py:46-91 | After the main loop the edges are exactly one `#888` edge per relationship value, in order. |
| GraphUtilsProofs.ConvertEdges | graph_utils/graph_utils.py:82-119 | With any relationship, the output edges are exactly one per relationship, in order. With none, every edge is a colourless `related` edge from the hub. |
| GraphUtilsProofs.RelationshipEdge | graph_utils/graph_utils.py:82-91 | The relationship at value position i is output edge r, from `str(start id)` to `str(end id)`, labelled with its type and coloured `#888`. Self-loops and repeats are kept. |
| GraphUtilsProofs.HubEdgesAppend | graph_utils/graph_utils.py:115-117 | The hub loop over two key lists in turn gives the edges of the first followed by those of the second. |
| GraphUtilsProofs.HubEdgesAll | graph_utils/graph_utils.py:115-117 | Over keys without the hub, the loop makes one edge per key, in key order. |
| GraphUtilsProofs.HubEdgesShape | graph_utils/graph_utils.py:115-117 | Every hub edge goes from `center_node` to some other key, is labelled `related` and has no colour. |
| GraphUtilsProofs.HubFresh | graph_utils/graph_utils.py:105-117 | Without the trigger nothing changes. With it, and no hub key yet, the hub goes last and each earlier key gets one hub edge, in key order. |
| GraphUtilsProofs.HubEdgesSkipHub | graph_utils/graph_utils.py:116 | The `nid != center_id` test drops exactly the hub's own key. |
| GraphUtilsProofs.RemovedOnce | graph_utils/graph_utils.py:115-116 | A key occurs only once in the dictionary, so removing its one position removes it. |
| GraphUtilsProofs.HubOverwrite | graph_utils/graph_utils.py:106-117 | When a scalar node already holds `center_node`, the hub replaces it in place, and there are n nodes and n-1 hub edges, one per other key in order. |
| GraphUtilsProofs.AllScalarStyleable | graph_utils/graph_utils.py:48 | Records made only of scalars can always be converted. |
| GraphUtilsProofs.AllScalarRecordsGrouped | graph_utils/graph_utils.py:105-117 | With n > 1 scalar-only records the output is their n Result nodes followed by the hub, and n hub edges to `record_0` ... `record_<n-1>`. |
| GraphUtilsProofs.AllScalarRecordsSingle | graph_utils/graph_utils.py:106 | With at most one scalar-only record there is no hub and no edge. |
| GraphUtilsProofs.ResultKeys | graph_utils/graph_utils.py:50 | The keys `record_0` ... `record_<n-1>`, in order. |
| GraphUtilsProofs.HubIdNotInResultKeys | graph_utils/graph_utils.py:107 | `center_node` is not among the Result keys. |
| GraphUtilsProofs.ResultKeysWalk | graph_utils/graph_utils.py:46-57 | Scalar-only records leave the keys `record_0` ... `record_<n-1>` in order and no edge. |
| GraphUtilsScenarios.JonNode | graph_utils/graph_utils.py:62-79 | A `User` entity with only a display name gets caption `User: Jon`, colour `#FF6B6B`, size 25 and empty hover text. |
| GraphUtilsScenarios.QuestionNode | graph_utils/graph_utils.py:62-79 | A `Question` entity's caption is `Question: ` and the first 20 characters of its title. Its hover text is the whole title, which is under 200 characters. |
| GraphUtilsScenarios.AskedWalk | graph_utils/graph_utils.py:46-103 | The mixed record user, relationship, question leaves the two entity nodes, in that order, and one `#888` edge. |
| GraphUtilsScenarios.AskedScenario | graph_utils/graph_utils.py:33-119 | That record converts to exactly the user node, then the question node, and the single `ASKED` edge from `1` to `2`, with no hub. |
| GraphUtilsScenarios.JonCountText | graph_utils/graph_utils.py:49 | The record `{"name": "Jon", "count": 5}` gets the hover text `name: Jon, count: 5`. |
| GraphUtilsScenarios.ScalarRecordScenario | graph_utils/graph_utils.py:33-119 | That record converts to the single node `record_0`, with caption `Result`, size 30 and colour `#88C0D0`, and no edge and no hub. |
| StreamlitApp.Walk | streamlit/app.py:53-73 | After the loops the node dictionary is valid and every node sits under its own id. |
| StreamlitApp.AddValue | streamlit/app.py:56-73 | The inner-loop body changes the builder exactly as `Step` does. |
| StreamlitApp.AddRecord | streamlit/app.py:55-73 | The inner loop over one record's values continues the fold over the values seen so far. |
| StreamlitApp.ConvertNeo4jToGraph | streamlit/app.py:48-75 | The imperative converter returns exactly `Convert(records)`. |
| StreamlitAppProofs.WalkTable | streamlit/app.py:56-65 | A key is present exactly when some entity has that id, and it holds the node of the first such entity. |
| StreamlitAppProofs.EntityFirstWins | streamlit/app.py:56-65 | The output has a node with id k exactly when some entity has `str(id) == k`, and it is the node for the first such entity: caption `f"{label}:{id}"`, size 25, colour `#4ECDC4`. |
| StreamlitAppProofs.NodeIdsUnique | streamlit/app.py:75 | No two output nodes share an id. |
| StreamlitAppProofs.WalkKeysBound | streamlit/app.py:56-65 | Only entities make keys. |
| StreamlitAppProofs.NodeCountBound | streamlit/app.py:56-65 | There are never more nodes than entity values. |
| StreamlitAppProofs.WalkEdges | streamlit/app.py:66-73 | The edges are one `#999` edge per relationship value, in order. |
| StreamlitAppProofs.ConvertEdges | streamlit/app.py:66-75 | The output edges are exactly one per relationship value, in order, and their number is the number of relationships. |
| StreamlitAppProofs.RelationshipEdge | streamlit/app.py:66-73 | The relationship at value position i is output edge r, from `str(start id)` to `str(end id)`, labelled with the type and coloured `#999`. No endpoint node is created for it. |
| StreamlitAppProofs.OrderedKeep | streamlit/app.py:58 | Keys whose first occurrence is unchanged stay in first-occurrence order. |
| StreamlitAppProofs.OrderedAppend | streamlit/app.py:58-65 | A key first met after all others stays ordered at the end. |
| StreamlitAppProofs.WalkOrder | streamlit/app.py:56-65 | The keys are ids of entities seen, in the order of their first occurrence. |
| StreamlitAppProofs.NodeOrder | streamlit/app.py:56-75 | For i < j, output node i's id first occurs among the values before output node j's id. |
| StreamlitAppProofs.WalkIgnores | streamlit/app.py:56-66 | Values that are neither entities nor relationships change nothing. |
| StreamlitAppProofs.RecordWithoutGraphValues | streamlit/app.py:53-73 | Adding a record with neither entities nor relationships leaves the output unchanged. |
| Nl2CypherMcp.TrimStart | nl2cypher_mcp/nl2cypher_mcp.py:136 | `lstrip()` leaves the suffix after all the leading whitespace; it starts with a non-space or is empty. |
| Nl2CypherMcp.TrimEnd | nl2cypher_mcp/nl2cypher_mcp.py:136 | `rstrip()` leaves the prefix before all the trailing whitespace; it ends with a non-space or is empty. |
| Nl2CypherMcp.Strip | nl2cypher_mcp/nl2cypher_mcp.py:136 | `strip()` is no longer than its input and neither starts nor ends with whitespace. |
| Nl2CypherMcp.TrimStartSpaces | nl2cypher_mcp/nl2cypher_mcp.py:136 | Leading whitespace before a non-space is removed entirely and nothing else is. |
| Nl2CypherMcp.TrimEndSpaces | nl2cypher_mcp/nl2cypher_mcp.py:136 | Trailing whitespace after a non-space is removed entirely and nothing else is. |
| Nl2CypherMcp.StripUnique | nl2cypher_mcp/nl2cypher_mcp.py:136 | Whitespace, then a text with non-space ends, then whitespace, strips to exactly that text. |
| Nl2CypherMcp.StripFixed | nl2cypher_mcp/nl2cypher_mcp.py:138 | A text with non-space ends is its own strip. |
| Nl2CypherMcp.StripIdempotent | nl2cypher_mcp/nl2cypher_mcp.py:138 | Stripping twice is stripping once. |
| Nl2CypherMcp.QueryTextTrimmed | nl2cypher_mcp/nl2cypher_mcp.py:136-140 | The returned query never starts or ends with whitespace. |
| Nl2CypherMcp.FenceStartRemoved | nl2cypher_mcp/nl2cypher_mcp.py:137 | A leading "```cypher\n" or "```\n" is removed, and only that. |
| Nl2CypherMcp.FenceEndRemoved | nl2cypher_mcp/nl2cypher_mcp.py:138 | A final "```" is removed, and only that. |
| Nl2CypherMcp.FencedReply | nl2cypher_mcp/nl2cypher_mcp.py:136-140 | A reply that is one fenced block, tagged `cypher` or not, with any whitespace around it, gives the block's body stripped. |
| Nl2CypherMcp.NoOpeningFence | nl2cypher_mcp/nl2cypher_mcp.py:137 | Text not starting with "```" is left alone by the opening substitution. |
| Nl2CypherMcp.NoClosingFence | nl2cypher_mcp/nl2cypher_mcp.py:138 | Text ending with neither "```" nor a newline is left alone by the closing substitution. |
| Nl2CypherMcp.FenceFree | nl2cypher_mcp/nl2cypher_mcp.py:137-138 | Neither substitution changes a text with no fence at either end and no final newline. |
| Nl2CypherMcp.StripNoFinalNewline | nl2cypher_mcp/nl2cypher_mcp.py:136 | A stripped reply never ends with a newline. |
| Nl2CypherMcp.UnfencedReply | nl2cypher_mcp/nl2cypher_mcp.py:136-140 | A reply with no fence at either end is only stripped. |
| Nl2CypherMcp.LastCharKept | nl2cypher_mcp/nl2cypher_mcp.py:137 | Removing an opening fence from text that does not end in whitespace leaves no final newline. |
| Nl2CypherMcp.NoFinalNewlineAfterStart | nl2cypher_mcp/nl2cypher_mcp.py:137-138 | The closing substitution never sees a final newline, so its before-newline case of `$` never applies. |
| Nl2CypherMcp.NaturalLanguageToCypher | nl2cypher_mcp/nl2cypher_mcp.py:136-151 | A reply with content gives its query text. Every failure, including a `None` content, gives a message starting with `[ERROR]`. |
| Nl2CypherMcp.FixedMessageSignatures | nl2cypher_mcp/nl2cypher_mcp.py:143-151 | Each of the five messages has its own characters at positions 8, 15, 18 and 19. |
| Nl2CypherMcp.MessageSignature | nl2cypher_mcp/nl2cypher_mcp.py:142-151 | A failure's message carries the characters of the clause that handles it. |
| Nl2CypherMcp.FailureMessagesDistinct | nl2cypher_mcp/nl2cypher_mcp.py:142-151 | Failures handled by different `except` clauses give different messages. |
| Nl2CypherMcp.FailureDetailKept | nl2cypher_mcp/nl2cypher_mcp.py:148-151 | The API-error and unexpected-error messages are their fixed prefix followed by the whole exception text. |
| Nl2CypherMcp.GenerateQuery | nl2cypher_mcp/nl2cypher_mcp.py:153-157 | The endpoint always answers with empty `parameters`. Its `query` is the query text on success, and an `[ERROR]` message on failure. |

## Left out

- `execute_neo4j_query` (graph_utils/graph_utils.py:7-30) is left out: the database call, its timing and its Streamlit messages are I/O. Records enter the model as values.
- The model call is a parameter of `GenerateQuery`, and it carries the user's message. The prompt texts, the OpenAI client, the model name and the temperature are left out.
- The FastAPI app, CORS, uvicorn, configuration loading and the rest of the Streamlit UI are left out: they are I/O and framework wiring.
- GraphUtils.ConvertNeo4jToGraph: requires that an entity's `title`, `display_name`, `name` and `body_markdown` properties, where present, be strings. The code only fails on a truthy non-string among the ones it actually reads, for an entity seen for the first time. Those inputs make the code raise instead of returning a graph, and they are not modelled. The same precondition sits on `GraphUtils.Convert`, `GraphUtils.Walk` and the lemmas about them.
- Floats carry their own rendering (`Float(repr)`). Float arithmetic and Python's float-to-text algorithm are not modelled.
- An entity's labels are a `frozenset` in the driver. Their iteration order is taken as given, as the sequence `labels`.
- A value with both the entity and the relationship attributes cannot be written as a `Value`. The first branch of both converters would take it as an entity.
- A Python `bool` is an `int`, so it is classed as a scalar. Its rendering is modelled as `True`/`False`.
- The OpenAI exception hierarchy is cut down to the five outcomes the service tells apart. Any other exception, an empty `choices` list among them, is `Unexpected` with its `str()` as the detail. Timeouts are connection errors.
- A Python `str.isspace()` is modelled by its fixed character set. Unicode data beyond that set is not modelled.
