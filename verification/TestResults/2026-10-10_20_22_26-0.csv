TestResult.DisplayName,TestResult.Outcome,TestResult.Duration,TestResult.ResourceCount,RandomSeed
DataSection.MemHandle (correctness),Passed,00:00:00.4806952,983285,3
