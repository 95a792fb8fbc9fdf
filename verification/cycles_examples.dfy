/** Worked runs of the cycle detector on small graphs. */
module CycleExamples {
  import opened Dict
  import opened Graph
  import opened Cycles

  /** `A -> B, B -> C, C -> A, D -> A`, keys in that order. */
  function Triangle(): (g: Graph)
    ensures Valid(g)
  {
    Dict(["A", "B", "C", "D"], map["A" := ["B"], "B" := ["C"], "C" := ["A"], "D" := ["A"]])
  }

  const T0: Search := Search({}, {}, {})
  const Cyc: set<Edge> := {("A", "B"), ("B", "C"), ("C", "A")}
  const S1: Search := Search({"A"}, {"A"}, {})
  const S2: Search := Search({"A", "B"}, {"A", "B"}, {})
  const S3: Search := Search({"A", "B", "C"}, {"A", "B", "C"}, {})
  const S4: Search := Search({"A", "B", "C"}, {"A", "B", "C"}, Cyc)
  const S5: Search := Search({"A", "B", "C", "D"}, {"A", "B", "C", "D"}, Cyc)
  const S6: Search := Search({"A", "B", "C", "D"}, {"A", "B", "C", "D"}, Cyc + {("D", "A")})

  lemma TriangleNodes()
    ensures "A" in Nodes(Triangle()) && "B" in Nodes(Triangle())
    ensures "C" in Nodes(Triangle()) && "D" in Nodes(Triangle())
  {
  }

  lemma TriangleSucc()
    ensures Succ(Triangle(), "A") == ["B"] && Succ(Triangle(), "B") == ["C"]
    ensures Succ(Triangle(), "C") == ["A"] && Succ(Triangle(), "D") == ["A"]
  {
  }

  lemma TriangleWalks()
    ensures IsWalk(Triangle(), ["A", "B", "C", "A"]) && IsWalk(Triangle(), ["D", "A"])
    ensures AllEdges(Triangle(), Cyc)
  {
    TriangleSucc();
  }

  lemma TriangleCycleHit()
    ensures StackHitEdges(["A", "B", "C"], "A") == Cyc
    ensures StackHitEdges(["D"], "A") == {("D", "A")}
  {
    var c := ["A", "B", "C", "A"];
    assert IndexOf(["A", "B", "C"], "A") == 0;
    assert ["A", "B", "C"][0..] + ["A"] == c;
    assert Link(c, 0) == ("A", "B") && Link(c, 1) == ("B", "C") && Link(c, 2) == ("C", "A");
  }

  lemma WalkPrefixes()
    ensures IsWalk(Triangle(), ["A"]) && IsWalk(Triangle(), ["A", "B"])
    ensures IsWalk(Triangle(), ["A", "B", "C"]) && IsWalk(Triangle(), ["D"])
  {
    TriangleSucc();
  }

  lemma Hit1Pre()
    ensures "A" in Nodes(Triangle()) && S3.visited <= Nodes(Triangle())
    ensures IsWalk(Triangle(), ["A", "B", "C"] + ["A"]) && AllEdges(Triangle(), S3.candidates)
    ensures "A" in S3.stack
  {
    TriangleNodes();
    TriangleWalks();
    assert ["A", "B", "C"] + ["A"] == ["A", "B", "C", "A"];
  }

  lemma Hit1()
    ensures DfsReady(Triangle(), "A", ["A", "B", "C"], S3)
    ensures Dfs(Triangle(), "A", ["A", "B", "C"], S3) == (true, S4)
  {
    Hit1Pre();
    DfsOnStack(Triangle(), "A", ["A", "B", "C"], S3);
    assert S3.candidates + StackHitEdges(["A", "B", "C"], "A") == Cyc by { TriangleCycleHit(); }
  }

  lemma Loop3Pre()
    ensures IsWalk(Triangle(), ["A", "B", "C"]) && IsWalk(Triangle(), ["A", "B", "C"] + ["A"])
    ensures forall n :: n in ["A"] ==> IsEdge(Triangle(), ["A", "B", "C"][2], n)
    ensures S3.visited <= Nodes(Triangle()) && AllEdges(Triangle(), S3.candidates)
    ensures "A" in Nodes(Triangle())
  {
    TriangleNodes();
    TriangleSucc();
    WalkPrefixes();
    Hit1Pre();
  }

  lemma Loop3()
    ensures EachReady(Triangle(), ["A", "B", "C"], ["A"], S3)
    ensures DfsEach(Triangle(), ["A", "B", "C"], ["A"], S3) == (true, S4)
  {
    Loop3Pre();
    Hit1();
    DfsEachFirstHit(Triangle(), ["A", "B", "C"], ["A"], S3, (true, S4));
  }

  lemma Step3Pre()
    ensures "C" in Nodes(Triangle()) && S2.visited <= Nodes(Triangle())
    ensures IsWalk(Triangle(), ["A", "B"] + ["C"]) && AllEdges(Triangle(), S2.candidates)
    ensures "C" !in S2.stack && "C" !in S2.visited
  {
    TriangleNodes();
    WalkPrefixes();
    assert ["A", "B"] + ["C"] == ["A", "B", "C"];
  }

  lemma Step3Body()
    ensures EachReady(Triangle(), ["A", "B"] + ["C"], Succ(Triangle(), "C"), Enter(S2, "C"))
    ensures DfsEach(Triangle(), ["A", "B"] + ["C"], Succ(Triangle(), "C"), Enter(S2, "C")) == (true, S4)
  {
    TriangleSucc();
    assert ["A", "B"] + ["C"] == ["A", "B", "C"];
    assert Enter(S2, "C") == S3;
    Loop3();
  }

  lemma Step3()
    ensures DfsReady(Triangle(), "C", ["A", "B"], S2)
    ensures Dfs(Triangle(), "C", ["A", "B"], S2) == (true, S4)
  {
    Step3Pre();
    Step3Body();
    DfsEnterHit(Triangle(), "C", ["A", "B"], S2, (true, S4));
  }

  lemma Loop2Pre()
    ensures IsWalk(Triangle(), ["A", "B"]) && IsWalk(Triangle(), ["A", "B"] + ["C"])
    ensures forall n :: n in ["C"] ==> IsEdge(Triangle(), ["A", "B"][1], n)
    ensures S2.visited <= Nodes(Triangle()) && AllEdges(Triangle(), S2.candidates)
    ensures "C" in Nodes(Triangle())
  {
    TriangleNodes();
    TriangleSucc();
    WalkPrefixes();
    assert ["A", "B"] + ["C"] == ["A", "B", "C"];
  }

  lemma Loop2()
    ensures EachReady(Triangle(), ["A", "B"], ["C"], S2)
    ensures DfsEach(Triangle(), ["A", "B"], ["C"], S2) == (true, S4)
  {
    Loop2Pre();
    Step3();
    DfsEachFirstHit(Triangle(), ["A", "B"], ["C"], S2, (true, S4));
  }

  lemma Step2Pre()
    ensures "B" in Nodes(Triangle()) && S1.visited <= Nodes(Triangle())
    ensures IsWalk(Triangle(), ["A"] + ["B"]) && AllEdges(Triangle(), S1.candidates)
    ensures "B" !in S1.stack && "B" !in S1.visited
  {
    TriangleNodes();
    WalkPrefixes();
    assert ["A"] + ["B"] == ["A", "B"];
  }

  lemma Step2Body()
    ensures EachReady(Triangle(), ["A"] + ["B"], Succ(Triangle(), "B"), Enter(S1, "B"))
    ensures DfsEach(Triangle(), ["A"] + ["B"], Succ(Triangle(), "B"), Enter(S1, "B")) == (true, S4)
  {
    TriangleSucc();
    assert ["A"] + ["B"] == ["A", "B"];
    assert Enter(S1, "B") == S2;
    Loop2();
  }

  lemma Step2()
    ensures DfsReady(Triangle(), "B", ["A"], S1)
    ensures Dfs(Triangle(), "B", ["A"], S1) == (true, S4)
  {
    Step2Pre();
    Step2Body();
    DfsEnterHit(Triangle(), "B", ["A"], S1, (true, S4));
  }

  lemma Loop1Pre()
    ensures IsWalk(Triangle(), ["A"]) && IsWalk(Triangle(), ["A"] + ["B"])
    ensures forall n :: n in ["B"] ==> IsEdge(Triangle(), ["A"][0], n)
    ensures S1.visited <= Nodes(Triangle()) && AllEdges(Triangle(), S1.candidates)
    ensures "B" in Nodes(Triangle())
  {
    TriangleNodes();
    TriangleSucc();
    WalkPrefixes();
    assert ["A"] + ["B"] == ["A", "B"];
  }

  lemma Loop1()
    ensures EachReady(Triangle(), ["A"], ["B"], S1)
    ensures DfsEach(Triangle(), ["A"], ["B"], S1) == (true, S4)
  {
    Loop1Pre();
    Step2();
    DfsEachFirstHit(Triangle(), ["A"], ["B"], S1, (true, S4));
  }

  lemma Step1Pre()
    ensures "A" in Nodes(Triangle()) && T0.visited <= Nodes(Triangle())
    ensures IsWalk(Triangle(), [] + ["A"]) && AllEdges(Triangle(), T0.candidates)
    ensures "A" !in T0.stack && "A" !in T0.visited
  {
    TriangleNodes();
    WalkPrefixes();
    assert [] + ["A"] == ["A"];
  }

  lemma Step1Body()
    ensures EachReady(Triangle(), [] + ["A"], Succ(Triangle(), "A"), Enter(T0, "A"))
    ensures DfsEach(Triangle(), [] + ["A"], Succ(Triangle(), "A"), Enter(T0, "A")) == (true, S4)
  {
    TriangleSucc();
    assert [] + ["A"] == ["A"];
    assert Enter(T0, "A") == S1;
    Loop1();
  }

  lemma Step1()
    ensures DfsReady(Triangle(), "A", [], T0)
    ensures Dfs(Triangle(), "A", [], T0) == (true, S4)
  {
    Step1Pre();
    Step1Body();
    DfsEnterHit(Triangle(), "A", [], T0, (true, S4));
  }

  lemma StaleLoopPre()
    ensures IsWalk(Triangle(), ["D"]) && IsWalk(Triangle(), ["D"] + ["A"])
    ensures forall n :: n in ["A"] ==> IsEdge(Triangle(), ["D"][0], n)
    ensures S5.visited <= Nodes(Triangle()) && AllEdges(Triangle(), S5.candidates)
    ensures "A" in Nodes(Triangle()) && "A" in S5.stack
  {
    TriangleNodes();
    TriangleSucc();
    WalkPrefixes();
    TriangleWalks();
    assert ["D"] + ["A"] == ["D", "A"];
  }

  lemma StaleFirst()
    ensures DfsReady(Triangle(), "A", ["D"], S5)
    ensures Dfs(Triangle(), "A", ["D"], S5) == (true, S6)
  {
    StaleLoopPre();
    DfsOnStack(Triangle(), "A", ["D"], S5);
    assert S5.candidates + StackHitEdges(["D"], "A") == Cyc + {("D", "A")} by { TriangleCycleHit(); }
  }

  lemma StaleLoop()
    ensures EachReady(Triangle(), ["D"], ["A"], S5)
    ensures DfsEach(Triangle(), ["D"], ["A"], S5) == (true, S6)
  {
    StaleLoopPre();
    StaleFirst();
    DfsEachFirstHit(Triangle(), ["D"], ["A"], S5, (true, S6));
  }

  lemma StaleHitPre()
    ensures "D" in Nodes(Triangle()) && S4.visited <= Nodes(Triangle())
    ensures IsWalk(Triangle(), [] + ["D"]) && AllEdges(Triangle(), S4.candidates)
    ensures "D" !in S4.stack && "D" !in S4.visited
  {
    TriangleNodes();
    WalkPrefixes();
    TriangleWalks();
    assert [] + ["D"] == ["D"];
  }

  lemma StaleHitBody()
    ensures EachReady(Triangle(), [] + ["D"], Succ(Triangle(), "D"), Enter(S4, "D"))
    ensures DfsEach(Triangle(), [] + ["D"], Succ(Triangle(), "D"), Enter(S4, "D")) == (true, S6)
  {
    TriangleSucc();
    assert [] + ["D"] == ["D"];
    assert Enter(S4, "D") == S5;
    StaleLoop();
  }

  lemma StaleHit()
    ensures DfsReady(Triangle(), "D", [], S4)
    ensures Dfs(Triangle(), "D", [], S4) == (true, S6)
  {
    StaleHitPre();
    StaleHitBody();
    DfsEnterHit(Triangle(), "D", [], S4, (true, S6));
  }

  lemma TriangleCandidates()
    ensures Candidates(Triangle()) == Cyc + {("D", "A")}
  {
    var g := Triangle();
    TriangleNodes();
    TriangleWalks();
    Step1();
    StaleHit();
    assert DfsRoots(g, [], S6) == S6;
    assert DfsRoots(g, ["D"], S4) == S6;
    assert ["B", "C", "D"][1..] == ["C", "D"] && ["C", "D"][1..] == ["D"];
    assert DfsRoots(g, ["C", "D"], S4) == S6;
    assert DfsRoots(g, ["B", "C", "D"], S4) == S6;
    assert ["A", "B", "C", "D"][1..] == ["B", "C", "D"];
  }

  lemma TriangleReachability()
    ensures Reachable(Triangle(), "B", "A") && Reachable(Triangle(), "C", "B")
    ensures Reachable(Triangle(), "A", "C") && !Reachable(Triangle(), "A", "D")
  {
    var g := Triangle();
    TriangleSucc();
    assert WalkFromTo(g, ["B", "C", "A"], "B", "A");
    assert WalkFromTo(g, ["C", "A", "B"], "C", "B");
    assert WalkFromTo(g, ["A", "B", "C"], "A", "C");
    assert Closed(g, {"A", "B", "C"});
    ClosedExcludes(g, {"A", "B", "C"}, "A", "D");
  }

  /** On `A -> B, B -> C, C -> A, D -> A` the detector reports exactly the
      triangle; the candidate `(D, A)` recorded for the stale stack entry `A`
      is rejected by the reachability check. */
  lemma TriangleResult()
    ensures FindCircularDependencies(Triangle()) == Cyc
  {
    TriangleCandidates();
    TriangleReachability();
    ValidationResult(Triangle(), Cyc);
  }

  /** `A -> B, A -> C, B -> A, C -> A`, keys in the order A, B, C. */
  function Bowtie(): (g: Graph)
    ensures Valid(g)
  {
    Dict(["A", "B", "C"], map["A" := ["B", "C"], "B" := ["A"], "C" := ["A"]])
  }

  const Pair: set<Edge> := {("A", "B"), ("B", "A")}
  const T1: Search := Search({"A"}, {"A"}, {})
  const T2: Search := Search({"A", "B"}, {"A", "B"}, {})
  const T3: Search := Search({"A", "B"}, {"A", "B"}, Pair)
  const T4: Search := Search({"A", "B", "C"}, {"A", "B", "C"}, Pair)
  const T5: Search := Search({"A", "B", "C"}, {"A", "B", "C"}, Pair + {("C", "A")})

  lemma BowtieShape()
    ensures "A" in Nodes(Bowtie()) && "B" in Nodes(Bowtie()) && "C" in Nodes(Bowtie())
    ensures Succ(Bowtie(), "A") == ["B", "C"] && Succ(Bowtie(), "B") == ["A"]
    ensures Succ(Bowtie(), "C") == ["A"]
  {
  }

  lemma BowtieWalks()
    ensures IsWalk(Bowtie(), ["A"]) && IsWalk(Bowtie(), ["A", "B"]) && IsWalk(Bowtie(), ["A", "B", "A"])
    ensures IsWalk(Bowtie(), ["C"]) && IsWalk(Bowtie(), ["C", "A"])
    ensures AllEdges(Bowtie(), Pair)
  {
    BowtieShape();
  }

  lemma BowtieHits()
    ensures StackHitEdges(["A", "B"], "A") == Pair
    ensures StackHitEdges(["C"], "A") == {("C", "A")}
  {
    var c := ["A", "B", "A"];
    assert IndexOf(["A", "B"], "A") == 0;
    assert ["A", "B"][0..] + ["A"] == c;
    assert Link(c, 0) == ("A", "B") && Link(c, 1) == ("B", "A");
  }

  lemma BowtieHitPre()
    ensures IsWalk(Bowtie(), ["A", "B"]) && IsWalk(Bowtie(), ["A", "B"] + ["A"])
    ensures forall n :: n in ["A"] ==> IsEdge(Bowtie(), ["A", "B"][1], n)
    ensures T2.visited <= Nodes(Bowtie()) && AllEdges(Bowtie(), T2.candidates)
    ensures "A" in Nodes(Bowtie()) && "A" in T2.stack
  {
    BowtieShape();
    BowtieWalks();
    assert ["A", "B"] + ["A"] == ["A", "B", "A"];
  }

  lemma BowtieHitB()
    ensures DfsReady(Bowtie(), "A", ["A", "B"], T2)
    ensures Dfs(Bowtie(), "A", ["A", "B"], T2) == (true, T3)
  {
    BowtieHitPre();
    DfsOnStack(Bowtie(), "A", ["A", "B"], T2);
    assert T2.candidates + StackHitEdges(["A", "B"], "A") == Pair by { BowtieHits(); }
  }

  lemma BowtieLoopB()
    ensures EachReady(Bowtie(), ["A", "B"], ["A"], T2)
    ensures DfsEach(Bowtie(), ["A", "B"], ["A"], T2) == (true, T3)
  {
    BowtieHitPre();
    BowtieHitB();
    DfsEachFirstHit(Bowtie(), ["A", "B"], ["A"], T2, (true, T3));
  }

  lemma BowtieEnterPre()
    ensures "B" in Nodes(Bowtie()) && T1.visited <= Nodes(Bowtie())
    ensures IsWalk(Bowtie(), ["A"] + ["B"]) && AllEdges(Bowtie(), T1.candidates)
    ensures "B" !in T1.stack && "B" !in T1.visited
  {
    BowtieShape();
    BowtieWalks();
    assert ["A"] + ["B"] == ["A", "B"];
  }

  lemma BowtieEnterBody()
    ensures EachReady(Bowtie(), ["A"] + ["B"], Succ(Bowtie(), "B"), Enter(T1, "B"))
    ensures DfsEach(Bowtie(), ["A"] + ["B"], Succ(Bowtie(), "B"), Enter(T1, "B")) == (true, T3)
  {
    BowtieShape();
    assert ["A"] + ["B"] == ["A", "B"];
    assert Enter(T1, "B") == T2;
    BowtieLoopB();
  }

  lemma BowtieEnterB()
    ensures DfsReady(Bowtie(), "B", ["A"], T1)
    ensures Dfs(Bowtie(), "B", ["A"], T1) == (true, T3)
  {
    BowtieEnterPre();
    BowtieEnterBody();
    DfsEnterHit(Bowtie(), "B", ["A"], T1, (true, T3));
  }

  lemma BowtieLoopAPre()
    ensures IsWalk(Bowtie(), ["A"]) && IsWalk(Bowtie(), ["A"] + ["B", "C"][..1])
    ensures forall n :: n in ["B", "C"] ==> IsEdge(Bowtie(), ["A"][0], n)
    ensures T1.visited <= Nodes(Bowtie()) && AllEdges(Bowtie(), T1.candidates)
    ensures "B" in Nodes(Bowtie())
  {
    BowtieShape();
    BowtieWalks();
    assert ["A"] + ["B", "C"][..1] == ["A", "B"];
  }

  lemma BowtieLoopA()
    ensures EachReady(Bowtie(), ["A"], ["B", "C"], T1)
    ensures DfsEach(Bowtie(), ["A"], ["B", "C"], T1) == (true, T3)
  {
    BowtieLoopAPre();
    assert ["A"] + [["B", "C"][0]] == ["A"] + ["B", "C"][..1];
    BowtieEnterB();
    DfsEachFirstHit(Bowtie(), ["A"], ["B", "C"], T1, (true, T3));
  }

  lemma BowtieRootPre()
    ensures "A" in Nodes(Bowtie()) && T0.visited <= Nodes(Bowtie())
    ensures IsWalk(Bowtie(), [] + ["A"]) && AllEdges(Bowtie(), T0.candidates)
    ensures "A" !in T0.stack && "A" !in T0.visited
  {
    BowtieShape();
    BowtieWalks();
    assert [] + ["A"] == ["A"];
  }

  lemma BowtieRootBody()
    ensures EachReady(Bowtie(), [] + ["A"], Succ(Bowtie(), "A"), Enter(T0, "A"))
    ensures DfsEach(Bowtie(), [] + ["A"], Succ(Bowtie(), "A"), Enter(T0, "A")) == (true, T3)
  {
    BowtieShape();
    assert Enter(T0, "A") == T1;
    assert [] + ["A"] == ["A"];
    BowtieLoopA();
  }

  lemma BowtieFirstRoot()
    ensures DfsReady(Bowtie(), "A", [], T0)
    ensures Dfs(Bowtie(), "A", [], T0) == (true, T3)
  {
    BowtieRootPre();
    BowtieRootBody();
    DfsEnterHit(Bowtie(), "A", [], T0, (true, T3));
  }

  lemma BowtieStalePre()
    ensures IsWalk(Bowtie(), ["C"]) && IsWalk(Bowtie(), ["C"] + ["A"])
    ensures forall n :: n in ["A"] ==> IsEdge(Bowtie(), ["C"][0], n)
    ensures T4.visited <= Nodes(Bowtie()) && AllEdges(Bowtie(), T4.candidates)
    ensures "A" in Nodes(Bowtie()) && "A" in T4.stack
  {
    BowtieShape();
    BowtieWalks();
    assert ["C"] + ["A"] == ["C", "A"];
  }

  lemma BowtieStaleHit()
    ensures DfsReady(Bowtie(), "A", ["C"], T4)
    ensures Dfs(Bowtie(), "A", ["C"], T4) == (true, T5)
  {
    BowtieStalePre();
    DfsOnStack(Bowtie(), "A", ["C"], T4);
    assert T4.candidates + StackHitEdges(["C"], "A") == Pair + {("C", "A")} by { BowtieHits(); }
  }

  lemma BowtieStaleLoop()
    ensures EachReady(Bowtie(), ["C"], ["A"], T4)
    ensures DfsEach(Bowtie(), ["C"], ["A"], T4) == (true, T5)
  {
    BowtieStalePre();
    BowtieStaleHit();
    DfsEachFirstHit(Bowtie(), ["C"], ["A"], T4, (true, T5));
  }

  lemma BowtieStaleRootPre()
    ensures "C" in Nodes(Bowtie()) && T3.visited <= Nodes(Bowtie())
    ensures IsWalk(Bowtie(), [] + ["C"]) && AllEdges(Bowtie(), T3.candidates)
    ensures "C" !in T3.stack && "C" !in T3.visited
  {
    BowtieShape();
    BowtieWalks();
    assert [] + ["C"] == ["C"];
  }

  lemma BowtieStaleRootBody()
    ensures EachReady(Bowtie(), [] + ["C"], Succ(Bowtie(), "C"), Enter(T3, "C"))
    ensures DfsEach(Bowtie(), [] + ["C"], Succ(Bowtie(), "C"), Enter(T3, "C")) == (true, T5)
  {
    BowtieShape();
    assert [] + ["C"] == ["C"];
    assert Enter(T3, "C") == T4;
    BowtieStaleLoop();
  }

  lemma BowtieStaleRoot()
    ensures DfsReady(Bowtie(), "C", [], T3)
    ensures Dfs(Bowtie(), "C", [], T3) == (true, T5)
  {
    BowtieStaleRootPre();
    BowtieStaleRootBody();
    DfsEnterHit(Bowtie(), "C", [], T3, (true, T5));
  }

  lemma BowtieCandidates()
    ensures Candidates(Bowtie()) == Pair + {("C", "A")}
  {
    var g := Bowtie();
    BowtieShape();
    BowtieWalks();
    BowtieFirstRoot();
    BowtieStaleRoot();
    assert DfsRoots(g, [], T5) == T5;
    assert DfsRoots(g, ["C"], T3) == T5;
    assert ["B", "C"][1..] == ["C"];
    assert DfsRoots(g, ["B", "C"], T3) == T5;
    assert ["A", "B", "C"][1..] == ["B", "C"];
  }

  /** The detector is not complete: in `A -> B, A -> C, B -> A, C -> A` the
      edge `A -> C` lies on the cycle `A, C, A`, but the search abandons `A`'s
      remaining neighbours after the hit through `B`, so `A -> C` is never a
      candidate and is not reported. */
  lemma MissedCycleEdge()
    ensures OnCycle(Bowtie(), "A", "C")
    ensures ("A", "C") !in FindCircularDependencies(Bowtie())
    ensures ("A", "C") in AllCycleEdges(Bowtie())
  {
    var g := Bowtie();
    BowtieShape();
    BowtieCandidates();
    assert WalkFromTo(g, ["C", "A"], "C", "A");
    assert ("A", "C") !in Candidates(g);
  }
}
