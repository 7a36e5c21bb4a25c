/** Two worked examples of the styled converter, computed in full: a user
    who asked a question, and a single record of scalars. */
module GraphUtilsScenarios {
  import opened Basics
  import opened Neo4jValues
  import opened Agraph
  import opened GraphUtils
  import opened GraphUtilsProofs

  /** The first 20 characters of the question's title. */
  const TitleHead := "How do I sort a list"
  const QuestionTitle := TitleHead + " in Python efficiently using built-ins?"
  const JonUser := Entity(1, ["User"], map["display_name" := Str("Jon")])
  const SortQuestion := Entity(2, ["Question"], map["title" := Str(QuestionTitle)])
  const Asked := Rel("ASKED", 1, 2)

  /** `{"u": user 1, "r": ASKED 1 -> 2, "q": question 2}`. */
  function AskedRecord(): Record {
    [("u", JonUser), ("r", Asked), ("q", SortQuestion)]
  }

  const AskedEdge := Edge("1", "2", "ASKED", Some("#888"))

  /** The converter state after each field of the record. */
  const AfterUser := Snapshot(["1"], map["1" := EntityNode(JonUser)], [])
  const AfterAsked := AfterUser.(edges := [AskedEdge])
  const AfterQuestion :=
    Snapshot(["1", "2"], map["1" := EntityNode(JonUser), "2" := EntityNode(SortQuestion)], [AskedEdge])

  /** `{"name": "Jon", "count": 5}`. */
  const JonCount: Record := [("name", Scalar(Str("Jon"))), ("count", Scalar(Int(5)))]

  lemma SmallIds()
    ensures ShowInt(1) == "1" && ShowInt(2) == "2"
  {
  }

  lemma JonDisplay()
    ensures TextProps(JonUser.props)
    ensures DisplayText(JonUser.props, "User") == "Jon"
  {
    assert Text(JonUser.props, "title") == "";
  }

  lemma JonHover()
    ensures TextProps(JonUser.props)
    ensures Hover(JonUser.props) == ""
  {
  }

  /** The user has no title, so its caption shows its display name, and it
      has no hover text. */
  lemma JonNode()
    ensures TextProps(JonUser.props)
    ensures EntityNode(JonUser) == Node("1", "User: Jon", 25, "#FF6B6B", Some(""))
  {
    SmallIds();
    JonDisplay();
    JonHover();
    assert Prefix("Jon", 20) == "Jon";
    assert EntityCaption(JonUser.labels, JonUser.props) == "User: Jon";
  }

  /** The question's caption cuts its title to 20 characters ("list" with no
      space after it); its hover text is the whole title. */
  lemma QuestionNode()
    ensures TextProps(SortQuestion.props)
    ensures EntityNode(SortQuestion) ==
      Node("2", "Question: " + TitleHead, 25, "#4ECDC4", Some(QuestionTitle))
  {
    SmallIds();
    QuestionTexts();
    QuestionCut();
    assert EntityCaption(SortQuestion.labels, SortQuestion.props) == "Question: " + TitleHead;
  }

  lemma QuestionTexts()
    ensures TextProps(SortQuestion.props)
    ensures DisplayText(SortQuestion.props, "Question") == QuestionTitle
    ensures Hover(SortQuestion.props) == QuestionTitle
  {
    var props := SortQuestion.props;
    assert Text(props, "title") == QuestionTitle;
    assert Text(props, "body_markdown") == "";
  }

  lemma QuestionCut()
    ensures Prefix(QuestionTitle, 20) == TitleHead
  {
    assert |TitleHead| == 20;
    assert QuestionTitle[..20] == TitleHead;
  }

  lemma UserStep()
    ensures TextProps(JonUser.props)
    ensures StepField(Empty, ("u", JonUser)) == AfterUser
  {
    SmallIds();
    JonNode();
  }

  lemma AskedStep()
    ensures StepField(AfterUser, ("r", Asked)) == AfterAsked
  {
    SmallIds();
  }

  lemma QuestionStep()
    ensures TextProps(SortQuestion.props)
    ensures StepField(AfterAsked, ("q", SortQuestion)) == AfterQuestion
  {
    SmallIds();
    QuestionNode();
    assert "2" !in AfterAsked.table;
  }

  lemma FoldUser()
    ensures FieldsStyleable([("u", JonUser)])
    ensures StepFields(Empty, [("u", JonUser)]) == AfterUser
  {
    UserStep();
    var r1 := [("u", JonUser)];
    assert r1[..0] == [];
  }

  lemma FoldAsked()
    ensures FieldsStyleable([("u", JonUser), ("r", Asked)])
    ensures StepFields(Empty, [("u", JonUser), ("r", Asked)]) == AfterAsked
  {
    FoldUser();
    AskedStep();
    var r2 := [("u", JonUser), ("r", Asked)];
    assert r2[..1] == [("u", JonUser)];
  }

  /** The mixed record `u, r, q` walks through one node, one edge, one node. */
  lemma AskedFold()
    ensures FieldsStyleable(AskedRecord())
    ensures StepFields(Empty, AskedRecord()) == AfterQuestion
  {
    FoldAsked();
    QuestionStep();
    AskedRecordShape();
    var r := AskedRecord();
    assert StepFields(Empty, r) == StepField(StepFields(Empty, r[..2]), r[2]);
  }

  lemma AskedRecordShape()
    ensures AskedRecord()[2] == ("q", SortQuestion)
    ensures AskedRecord()[..2] == [("u", JonUser), ("r", Asked)]
    ensures FieldsStyleable(AskedRecord())
  {
  }

  /** A user who asked a question: two styled nodes, the user first, and
      one edge between them; with an edge present there is no hub. */
  lemma AskedScenario()
    ensures RecordsStyleable([AskedRecord()])
    ensures Convert([AskedRecord()]) ==
      ([Node("1", "User: Jon", 25, "#FF6B6B", Some("")),
        Node("2", "Question: " + TitleHead, 25, "#4ECDC4", Some(QuestionTitle))],
       [AskedEdge])
  {
    AskedWalk();
    AskedNodes();
    JonNode();
    QuestionNode();
  }

  /** The final state lists the user, then the question; it has an edge, so
      the hub pass leaves it alone. */
  lemma AskedNodes()
    ensures Hub(AfterQuestion) == AfterQuestion
    ensures AfterQuestion.Valid()
    ensures AfterQuestion.Nodes() == [EntityNode(JonUser), EntityNode(SortQuestion)]
  {
    AfterQuestionValid();
    var s := AfterQuestion;
    assert s.Nodes()[0] == s.table["1"] && s.Nodes()[1] == s.table["2"];
  }

  lemma AfterQuestionValid()
    ensures AfterQuestion.Valid()
  {
    assert AfterQuestion.keys[0] != AfterQuestion.keys[1];
  }

  lemma AskedWalk()
    ensures RecordsStyleable([AskedRecord()])
    ensures Walk([AskedRecord()]) == AfterQuestion
  {
    AskedFold();
    AskedMixed();
    var records := [AskedRecord()];
    assert records[..0] == [];
    assert Walk(records) == StepRecord(Empty, 0, AskedRecord());
  }

  lemma AskedMixed()
    ensures RecordsStyleable([AskedRecord()])
    ensures !ScalarOnly(AskedRecord())
  {
    AskedRecordShape();
    assert !AskedRecord()[0].1.Scalar?;
  }

  lemma JonCountParts()
    ensures ScalarOnly(JonCount)
    ensures FieldTexts(JonCount) == ["name: Jon", "count: 5"]
  {
    assert ShowInt(5) == "5";
    var ts := FieldTexts(JonCount);
    FieldTextsAt(JonCount, 0);
    FieldTextsAt(JonCount, 1);
    assert |ts| == 2 && ts[0] == "name: Jon" && ts[1] == "count: 5";
  }

  lemma JonCountText()
    ensures ScalarOnly(JonCount)
    ensures Join(FieldTexts(JonCount), ", ") == "name: Jon, count: 5"
  {
    JonCountParts();
    var ts := FieldTexts(JonCount);
    assert ts[1..] == ["count: 5"];
  }

  /** A single scalar-only record: one Result node whose hover text lists
      its fields, no edge and no hub. */
  lemma ScalarRecordScenario()
    ensures RecordsStyleable([JonCount])
    ensures Convert([JonCount]) ==
      ([Node("record_0", "Result", 30, "#88C0D0", Some("name: Jon, count: 5"))], [])
  {
    JonCountText();
    var records := [JonCount];
    assert AllScalarOnly(records);
    AllScalarStyleable(records);
    AllScalarRecordsSingle(records);
    assert RecordKey(0) == "record_0" by { assert ShowNat(0) == "0"; }
  }
}
